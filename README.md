# Person record store (RoadRegistryProject) in Dafny

This project models the `Person` class of the RoadRegistryProject: a store of
person lines `id|address|birthdate` with two operations.

- `addPerson` checks the three fields and appends one line.
- `updatePersonalDetails` checks the new fields, then rewrites the whole store
  line by line. Three ordered rules apply to every line whose first piece is
  the old ID: the even-first-digit ID lock, birthdate-change isolation and the
  under-18 address lock.

Layout:

- `java_text.dfy` (module `JavaText`): ASCII character classes, case-insensitive
  comparison, and `String.split("\\|")`. The split drops trailing empty pieces
  and gives `[s]` when there is no separator. It is proved against `Join` in
  both directions.
- `dates.dfy` (module `Dates`): `LocalDate.parse` with the pattern `dd-MM-yyyy`
  under the default SMART resolver, and the year part of `Period.between`.
  Parsing is proved against a `dd-MM-yyyy` formatter in both directions
  (`ParseFormat`, `FormatParse`), and its failures are stated outright
  (`ParseDateFails`). The age is proved against lexicographic birthday
  comparison (`AgeAtLeast`).
- `person_fields.dfy` (module `PersonFields`): the ID, address and birthdate
  shape checks, with lemmas that state each one explicitly.
- `person.dfy` (module `PersonRegistry`): the pure specification `Update` and
  its lemmas, plus class `Person`. The class holds the store as a `seq<string>`
  field `lines`. Its methods `AddPerson` and `UpdatePersonalDetails` mirror the
  source and are proved against `AddAccepts` and `Update`. "Today" is a
  parameter.

The model follows the code where it departs from the documented design of the
system:

- The "existing address" and "existing birthdate" are pieces 1 and 2 of the
  split line. For a line written by `addPerson` with an ID that holds no '|',
  these are the street number and the street name (`StoredPieces`). The ID
  check lets '|' appear among positions 2..7 (for example `22|!!!!!AB`); such
  an ID is itself cut into pieces, and the address and birthdate move to later
  pieces.
- A valid new address always holds a '|', and a split piece never does. So the
  address always counts as changed (`NewAddressAlwaysDiffers`).
- As a result, an update is accepted only when every line of the old ID
  already holds the new birthdate text as its piece 2
  (`AcceptedUpdateNeedsSameBirthdate`). The line the update writes in its
  place has the new street name as piece 2, not the new birthdate, when the
  new ID holds no '|' (`ReplacementPieces`). So an accepted update changes
  piece 2 of each line it replaces, unless the new street name happens to equal
  the new birthdate text. An update of a record written by
  `addPerson` is refused unless the record's street name equals the new
  birthdate text (`AddedRecordUpdateRefused`).
- Birthdates are checked for shape only, not against the calendar
  (`BirthdateShapeIsNotCalendar`).
- When the stored birthdate does not parse during an address change, the line
  is kept as it is and the call can still succeed. The model does not report
  this as an error.
- Every line that matches the old ID is processed, not just the first. So
  duplicates are all replaced, and a rule violation on any one of them refuses
  the call.
- The method returns only true or false, as the source does. `Update` also
  records the reason for a refusal, in source order: a bad field, then the
  first rejected line, then no line for the old ID.

## Model

| member | source | states |
|---|---|---|
| `JavaText.DropTrailingEmpty` | RoadRegistryProject/src/main/java/Person.java:61-62 | the result is the longest prefix whose last piece is non-empty; only empty pieces are removed, and only at the end |
| `JavaText.Split` | RoadRegistryProject/src/main/java/Person.java:74 | no contract of its own: a string without a separator is one piece, otherwise the separator-cut pieces less the trailing empty ones; characterised by `SplitOfJoin`, `SplitRebuild` and `SplitBarFree` (also used at lines 32 and 61) |
| `JavaText.SplitOfJoin` | RoadRegistryProject/src/main/java/Person.java:32-33 | at least two separator-free pieces with a non-empty last one, joined with separators and followed by any number of separators, split back into exactly those pieces |
| `JavaText.SplitRebuild` | RoadRegistryProject/src/main/java/Person.java:74 | a string with a separator and a non-empty split is its split pieces joined, followed by separators; the pieces hold no separator and the last is non-empty |
| `JavaText.PiecesRebuild` | RoadRegistryProject/src/main/java/Person.java:74 | cutting at every separator loses nothing: joining the pieces again gives the string back, and no piece holds a separator |
| `JavaText.SplitBarFree` | RoadRegistryProject/src/main/java/Person.java:74 | no piece of a split line holds a separator |
| `Dates.ParseDate` | RoadRegistryProject/src/main/java/Person.java:104 | a parsed date has the `dd-MM-yyyy` shape, is a real calendar date and has a year in 1..9999 |
| `Dates.ParsedFields` | RoadRegistryProject/src/main/java/Person.java:104 | a parsed text has the date shape; the date is valid, has the text's month and year, and the text's day or, for a day past the month's end, the month's last day |
| `Dates.ParseDateFails` | RoadRegistryProject/src/main/java/Person.java:104 | a shaped text fails to parse exactly when its month is outside 1..12, its day outside 1..31, or its year is 0000 |
| `Dates.FormatParse` | RoadRegistryProject/src/main/java/Person.java:104 | the date a text parses to, written as `dd-MM-yyyy`, agrees with the text from the month on, and is the text itself unless the day was past the month's end and became its last day |
| `Dates.ParseFormat` | RoadRegistryProject/src/main/java/Person.java:17 | every real date of years 1..9999 written as `dd-MM-yyyy` parses back to itself |
| `Dates.AgeInYears` | RoadRegistryProject/src/main/java/Person.java:105 | no contract of its own: `Period.between(birth, today).getYears()`; characterised by `AgeAtLeast` and `FutureBirthdateAge` |
| `Dates.AgeAtLeast` | RoadRegistryProject/src/main/java/Person.java:105-106 | for n >= 1, the whole-year age is at least n exactly when the n-th birthday (year + n, same month and day) is not after today |
| `Dates.FutureBirthdateAge` | RoadRegistryProject/src/main/java/Person.java:105-106 | a birthdate after today gives an age of zero or less, so it is always under 18 |
| `PersonFields.SpecialCount` | RoadRegistryProject/src/main/java/Person.java:24-28 | the count of non-letter, non-digit characters is at most the length; characterised by `SpecialCountAtLeastTwo` |
| `PersonFields.AddIdShape` | RoadRegistryProject/src/main/java/Person.java:20-29 | no contract of its own: the ID regex of `addPerson` and the special-character count; characterised by `AddIdShapeExplicit` |
| `PersonFields.UpdateIdShape` | RoadRegistryProject/src/main/java/Person.java:52-58 | no contract of its own: the new-ID regex of the update and the same count; characterised by `UpdateIdShapeNarrower` |
| `PersonFields.AddressShape` | RoadRegistryProject/src/main/java/Person.java:61-62 | no contract of its own: five split pieces with piece 3 equal to "Victoria" ignoring case (also lines 32-33); characterised by `AddressOfFields` and `AddressFields` |
| `PersonFields.BirthdateShape` | RoadRegistryProject/src/main/java/Person.java:65 | no contract of its own: the `dd-MM-yyyy` digit shape (also line 38); characterised by `BirthdateShapeIsNotCalendar` |
| `PersonFields.SpecialCountAtLeastTwo` | RoadRegistryProject/src/main/java/Person.java:24-29 | the count of non-letter, non-digit characters is at least two exactly when two distinct positions hold one |
| `PersonFields.AddIdShapeExplicit` | RoadRegistryProject/src/main/java/Person.java:20-29 | `addPerson` accepts an ID exactly when it has length 10, characters 0-1 in '2'..'9', characters 8-9 in 'A'..'Z', and two distinct positions in 2..7 that are neither letters nor digits |
| `PersonFields.UpdateIdShapeNarrower` | RoadRegistryProject/src/main/java/Person.java:52-58 | the update's new-ID check is `addPerson`'s check plus "no line terminator in positions 2..7"; an ID with newlines there passes only `addPerson`'s check |
| `PersonFields.AddressOfFields` | RoadRegistryProject/src/main/java/Person.java:32-33 | five separator-free fields with a non-empty country, plus any trailing separators, form an accepted address exactly when the state equals "Victoria" ignoring case |
| `PersonFields.AddressFields` | RoadRegistryProject/src/main/java/Person.java:61-62 | every accepted address is five separator-free fields joined with separators, followed by more separators, with a non-empty country and Victoria as state |
| `PersonFields.EmptyCountryRejected` | RoadRegistryProject/src/main/java/Person.java:32-33 | an address whose final (country) field is empty is refused |
| `PersonFields.EmptyStreetNumberAccepted` | RoadRegistryProject/src/main/java/Person.java:61-62 | an address whose leading field is empty is accepted |
| `PersonFields.BirthdateShapeIsNotCalendar` | RoadRegistryProject/src/main/java/Person.java:38 | the birthdate check passes "00-13-2000", which does not parse; "31-02-2021" parses to 28-02-2021 |
| `PersonRegistry.Person.constructor` | RoadRegistryProject/src/main/java/Person.java:16 | the store starts with the given lines |
| `PersonRegistry.Person.AddPerson` | RoadRegistryProject/src/main/java/Person.java:18-49 | returns true exactly when the ID, address and birthdate checks pass; then the store is the old store with one line appended: the ID, address and birthdate joined by separators; otherwise the store is unchanged |
| `PersonRegistry.Person.UpdatePersonalDetails` | RoadRegistryProject/src/main/java/Person.java:50-141 | returns true exactly when `Update` accepts; the store then becomes `Update`'s lines; on any refusal the store is exactly as before |
| `PersonRegistry.MatchesOld` | RoadRegistryProject/src/main/java/Person.java:76 | no contract of its own: at least three pieces, the first equal to the old ID; characterised by `VerdictOfMatching` |
| `PersonRegistry.RuleVerdict` | RoadRegistryProject/src/main/java/Person.java:81-117 | no contract of its own: the three rules in source order on the stored address and birthdate; characterised by `EvenDigitLocksId`, `BirthdateChangeIsolated` and `MinorAddressLocked` |
| `PersonRegistry.LineVerdict` | RoadRegistryProject/src/main/java/Person.java:74-119 | no contract of its own: a non-matching line is kept, a matching one goes through the rules on its pieces 1 and 2; characterised by `VerdictOfMatching` and the rule lemmas |
| `PersonRegistry.ScanLines` | RoadRegistryProject/src/main/java/Person.java:73-121 | no contract of its own: the loop over the stored lines, stopping at the first rejection; characterised by `ScanOkIff`, `ScanResult`, `ScanFirstRejection`, `ScanSnoc` and `ScanErrPersists` |
| `PersonRegistry.Update` | RoadRegistryProject/src/main/java/Person.java:50-136 | no contract of its own: field checks, then the scan, then the not-found check; characterised by `UpdateAccepted` and `UpdateRefused`, and implemented by `Person.UpdatePersonalDetails` |
| `PersonRegistry.ScanOkIff` | RoadRegistryProject/src/main/java/Person.java:73-121 | the line scan completes exactly when no line is rejected |
| `PersonRegistry.ScanResult` | RoadRegistryProject/src/main/java/Person.java:112-119 | a completed scan has one output line per stored line, each the line's rewrite, and reports "found" exactly when some line matches the old ID |
| `PersonRegistry.ScanFirstRejection` | RoadRegistryProject/src/main/java/Person.java:89-108 | a refused scan carries the reason of its first rejected line, and no earlier line is rejected |
| `PersonRegistry.ScanSnoc` | RoadRegistryProject/src/main/java/Person.java:73-120 | scanning one more line at the end is one more step applied to the scan of the lines before it |
| `PersonRegistry.ScanErrPersists` | RoadRegistryProject/src/main/java/Person.java:91 | once a prefix of the store is refused, any longer store is refused |
| `PersonRegistry.UpdateAccepted` | RoadRegistryProject/src/main/java/Person.java:67-136 | accepted exactly when the fields are valid, some line matches and no line is rejected; the new store has the same length, lines not replaced (including those kept for an unparseable birthdate) stay in place, and replaced lines become the line of new ID, new address and new birthdate joined by separators |
| `PersonRegistry.UpdateRefused` | RoadRegistryProject/src/main/java/Person.java:50-130 | a refusal is for an invalid field, for no matching line, or for the reason of the first rejected line |
| `PersonRegistry.VerdictOfMatching` | RoadRegistryProject/src/main/java/Person.java:76 | only lines with at least three pieces whose first piece is the old ID are processed by the rules |
| `PersonRegistry.EvenDigitLocksId` | RoadRegistryProject/src/main/java/Person.java:86-92 | if the old ID starts with an even digit, has a line, and the ID would change, the update is refused for that reason, whatever the other rules say |
| `PersonRegistry.BirthdateChangeIsolated` | RoadRegistryProject/src/main/java/Person.java:96-99 | a matching line whose piece 2 differs from the new birthdate, while piece 1 differs from the new address or the ID changes, refuses the update |
| `PersonRegistry.MinorAddressLocked` | RoadRegistryProject/src/main/java/Person.java:102-109 | a matching line whose piece 1 differs from the new address and whose piece 2 parses to a date whose 18th birthday is after today (future dates included) refuses the update |
| `PersonRegistry.NotFoundRefused` | RoadRegistryProject/src/main/java/Person.java:127-130 | a valid request whose old ID has no line is refused as not found |
| `PersonRegistry.NewAddressAlwaysDiffers` | RoadRegistryProject/src/main/java/Person.java:78-82 | piece 1 of any stored line never equals a valid new address, so every matching line goes through the age rule |
| `PersonRegistry.AcceptedUpdateNeedsSameBirthdate` | RoadRegistryProject/src/main/java/Person.java:81-117 | an update is accepted only when piece 2 of every stored line of the old ID already equals the new birthdate text; every replaced line had a stored birthdate at least 18 years before today |
| `PersonRegistry.ReplacementPieces` | RoadRegistryProject/src/main/java/Person.java:117 | the line written in place of a matching one, for a new ID without a separator, matches the new ID and has the new street number as piece 1 and the new street name as piece 2 |
| `PersonRegistry.StoredPieces` | RoadRegistryProject/src/main/java/Person.java:44 | a line written by `addPerson` with a separator-free ID splits into the ID, the address fields, any trailing empty fields and the birthdate; so piece 1 is the street number, piece 2 the street name, and the line matches its own ID |
| `PersonRegistry.AddedRecordUpdateRefused` | RoadRegistryProject/src/main/java/Person.java:74-99 | an update of a record written by `addPerson` (with a separator-free ID) is refused unless the record's street name equals the new birthdate text |

## Left out

- File I/O: the model has no reading or writing of `person_data.txt`, and no append or truncate mode. The store is the field `lines`, one entry per line. The `IOException` paths that return false are not modelled.
- Line terminators inside written fields: `addPerson` lets an ID hold a newline (`[\w\W]`), and an address piece may hold one too. In the file such a record would read back as several lines; the model keeps it as one entry.
- Console output (`System.out.println`, `printStackTrace`) carries no state and is not modelled.
- The live clock: `LocalDate.now()` becomes the `today` parameter.
- Empty old ID: `charAt(0)` on an empty old ID throws when a line's first piece is empty. Every update member requires `|oldID| > 0` instead of modelling the exception.
- Unicode character classes: `Character.isLetterOrDigit`, `Character.isDigit`/`getNumericValue` and `equalsIgnoreCase` are modelled on ASCII only. Non-ASCII letters count as special characters here, and non-ASCII digits are not digits.
- Surrogate pairs: the source's regexes match code points, while `charAt` and `length` count UTF-16 units. The model counts every character once, so for characters outside the Basic Multilingual Plane its lengths and positions differ from Java's.
- Dates.ParseDate: does not accept the signed long-year form `+yyyyy` that `yyyy` also admits, so years above 9999 do not parse. Every other `dd-MM-yyyy` outcome (range checks, year of era at least 1, and the SMART end-of-month adjustment) is modelled.
- Concurrency and locking around the store: the source is single-threaded and has none.
- Storage-failure outcomes: the model has no result for an unavailable store, because I/O is left out.
