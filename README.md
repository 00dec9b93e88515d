# optsparser in Dafny

A model of the Go package `optsparser`, which wraps the standard `flag`
library. The model covers five parts:

- **Registration tables.** Options are registered under a long name, an
  optional one-byte short alias, and a type tag.
- **Required names.** A set of names must be registered before parsing and
  set on the command line.
- **Separator lines.** These group options in the usage text.
- **Usage text.** It is printed when parsing fails: an error line, a header,
  a general description, then one entry per registered name in
  registration order.
- **Parse outcome.** A help request, an error from the flag library, or
  required names left unset each become the returned error. The usage text
  is printed first when usage-on-fail is on.

The model also covers two other pieces:

- The tests' custom date option, which reads `YYYY.MM.DD` into the integer
  `YYYYMMDD` and prints it back.
- The earlier single-file prototype of the parser, which is much laxer.

Modules:

- `Wrappers`: `Option` and `Result`.
- `GoStrings`: `strings.Cut`, `strings.Split`, `strings.Join`, byte length,
  and the `sort.Strings` order.
- `Decimal`: `%d`, `strconv.ParseInt(s, 10, 32)`, and Go's truncating `/`
  and `%`.
- `OptTypes`: type tags, the per-option record, and the discarding writer.
- `FlagSet`: the part of `flag.FlagSet` the parser relies on. This is a
  table of defined names and the outcome of parsing a command line.
- `OptNames`: splitting and checking specifiers, `dashes`, and separator
  keys.
- `OptRequired`: crediting set flags to required names, and the
  missing-options error.
- `OptUsage`: the usage text as a function of the tables.
- `OptRegistry`: all the tables as one value, and the separator loop as a
  function of it.
- `OptsParser`: the parser object, as a class whose methods update its
  fields.
- `Ymd`: the tests' date option.
- `Prototype`: the prototype parser and its specification functions.

How Go behaviour is represented:

- **Panics** are returned as an `Outcome` value (`Panicked(...)`). The state
  is left changed exactly as far as the Go code got before it panicked.
- **`os.Exit(1)`** is returned as `Exited(1)`.
- **The output stream** is a string field that `Usage` appends to.
- **The flag library's parse of `os.Args[1:]`** is a parameter: a help
  request, a failure with its message, or success with the set names.
- **Go's random map iteration order** shows up in two places, both over
  the required names. The pending check at the start of `Parse` panics on
  "some" pending name. The names collected for sorting are picked in an
  arbitrary order, and the sorted result is proved independent of it.
- **`FlagSet.Visit`** visits the set flags in lexicographical order. The
  model of `requiredSet` lets them be visited in any order and proves the
  result the same for every order, which covers the one Go uses.

The three string constants `optIndent`, `helpIndent` and `sepPrefix`, and
the separator's type tag, are defined in a file that is not part of this
model. They are constants without a value here. Properties are proved for
every value of them, within the two assumptions listed under "Left out".

## Model

| member | source | states |
|---|---|---|
| `Decimal.ParseInt32` | test_data_test.go:267 | a successful `ParseInt(s, 10, 32)` yields a value in [-2^31, 2^31-1] |
| `Decimal.Int32RoundTrip` | test_data_test.go:267 | every 32-bit integer written with `%d` parses back to itself |
| `Decimal.GoQuotTruncates` | test_data_test.go:262 | Go's `/` by a positive divisor truncates toward zero: for `a >= 0` the quotient is the largest `q >= 0` with `q*b <= a`, and for `a < 0` the smallest `q <= 0` with `a <= q*b` |
| `Decimal.GoRem` | test_data_test.go:262 | Go's `%` satisfies `a == (a/b)*b + r`, with `r` taking the sign of `a` and `abs(r) < b` |
| `GoStrings.ByteLen` | optsparser.go:469 | Go's `len` of a string counts UTF-8 bytes: at least the character count, and zero only for "" |
| `GoStrings.ByteLenIsOne` | optsparser.go:469 | a string is one byte long exactly when it is a single ASCII character |
| `GoStrings.Cut` | optsparser.go:260 | `strings.Cut` finds the separator exactly when present; before it is separator-free and `s == before + sep + after`; otherwise `before == s` and after is empty |
| `GoStrings.CutAt` | optsparser.go:260 | cutting `a + sep + b` with separator-free `a` gives back `a` and `b` |
| `GoStrings.Split` | test_data_test.go:266 | `strings.Split` returns at least one piece, no piece holds the separator, and the pieces joined by it give the input back |
| `GoStrings.SplitJoin` | test_data_test.go:266 | splitting separator-free pieces joined by the separator gives back exactly those pieces |
| `GoStrings.LessIrreflexive` | optsparser.go:233 | the `sort.Strings` order is irreflexive |
| `GoStrings.LessTransitive` | optsparser.go:233 | the `sort.Strings` order is transitive |
| `GoStrings.LessTotal` | optsparser.go:233 | any two different strings are ordered one way or the other |
| `GoStrings.LessAsymmetric` | optsparser.go:233 | the order never holds both ways |
| `GoStrings.Insert` | optsparser.go:228-233 | inserting into a strictly sorted sequence keeps it strictly sorted, adds exactly the new name, and grows it by one |
| `GoStrings.SortSet` | optsparser.go:228-233 | the sorted list of a set of names is strictly sorted, holds exactly the set, and has its size |
| `GoStrings.SortedUnique` | optsparser.go:233 | two strictly sorted sequences with the same elements are equal, so the sorted order is unique |
| `OptTypes.TagNamesDistinct` | consts_types.go:3-13 | no two value types share a tag string |
| `OptTypes.ValueHint` | optsparser.go:332-339 | the hint is `[=true\|false]` exactly for a bool, and a space plus the tag for every other type |
| `OptTypes.DiscardWrite` | consts_types.go:21-24 | the discarding writer reports every byte as written and never fails |
| `OptTypes.DiscardTakesEverything` | optparser.go:66-69 | any run of writes to it reports the total byte count and no error |
| `FlagSet.Define` | optsparser.go:72-75 | defining a name fails exactly when it is already defined; otherwise it adds that name with its usage and default, and no other entry changes |
| `OptNames.SplitName` | optsparser.go:260 | the specifier splits at its first `\|`: long + "\|" + short with a bar-free long, or the whole text as long when there is no bar |
| `OptNames.CheckName` | optsparser.go:262-277 | separators skip every check; equal halves are refused first, with the type and the usage |
| `OptNames.AcceptedIff` | optsparser.go:262-277 | a value-typed specifier passes exactly when it is "long", or "long\|c" with a non-empty long and one one-byte `c` different from long |
| `OptNames.SplitAtBar` | optsparser.go:260 | "long\|short" with a bar-free long splits into those two halves |
| `OptNames.SplitLongOnly` | optsparser.go:260 | a specifier without a bar is a long name only, whatever its length |
| `OptNames.RejectSameHalves` | optsparser.go:267-268 | "opt1\|opt1" is refused for equal halves |
| `OptNames.RejectLongShort` | optsparser.go:275-276 | "opt2\|not-so-short" is refused for its short length |
| `OptNames.BadShortRejected` | optsparser.go:275-276 | any well-separated specifier whose short half is not one character is refused for its short length |
| `OptNames.RejectEmptyShort` | optsparser.go:275-276 | "opt3\|" is refused for its short length |
| `OptNames.RejectEmptyLong` | optsparser.go:270-273 | "\|o" is refused as a short name without a long one, and the reason names the specifier and the short half |
| `OptNames.EmptyLongRejected` | optsparser.go:270-276 | any value-typed specifier with a bar, nothing before it and something after it is refused as a missing long name, before its short half's length is checked |
| `OptNames.RejectEmptyLongFirst` | optsparser.go:270-276 | "\|ab" is refused as a missing long name, not for its two-byte short half |
| `OptNames.RejectEmptyName` | optsparser.go:267-268 | "" is refused by the equal-halves check, since both halves are empty |
| `OptNames.AcceptBareShort` | optsparser.go:262-277 | "b" is accepted as the long name "b" with no alias |
| `OptNames.Dashes` | optsparser.go:467-476 | one dash exactly for a one-byte name, two otherwise |
| `OptNames.SepKeyInjective` | optsparser.go:450-453 | different counter values give different separator keys |
| `OptRequired.Credit` | optsparser.go:307-319 | a set flag is credited only to a required name: to itself when it is required, and otherwise to its short-alias target when that is required (the target of a flag that is no alias is "", as Go's zero value) |
| `OptRequired.Satisfied` | optsparser.go:298-323 | the credited names are required names |
| `OptRequired.SatisfiedIff` | optsparser.go:307-319 | a required name counts as set exactly when it was set under its own name, or through a non-required short name linked to it |
| `OptRequired.SatisfiedMonotone` | optsparser.go:307-320 | setting more flags never satisfies fewer required names |
| `OptRequired.SatisfiedAdd` | optsparser.go:307-320 | visiting one more flag credits at most its one required name, so the visiting order does not matter |
| `OptRequired.MarkSeen` | optsparser.go:309-318 | the tracker keeps its keys, and a name is `true` afterwards exactly when it was credited or already `true` |
| `OptRequired.MarkSeenAdd` | optsparser.go:309-318 | crediting one more name is one more update to `true` |
| `OptRequired.SecondParsePanics` | optsparser.go:182-186 | after a parse that satisfied all of a non-empty required set, every entry is `true`, so the check at the start of the next parse panics |
| `OptRequired.SameSizeIsAll` | optsparser.go:217-221 | comparing the sizes of satisfied and required names is the same as comparing the sets |
| `OptRequired.Dashed` | optsparser.go:236-243 | each name in order gets its own dash prefix, and the length is kept |
| `OptRequired.FilterProps` | optsparser.go:236-243 | taking out the satisfied names keeps exactly the other elements, and keeps a sorted list sorted |
| `OptRequired.FilterSorted` | optsparser.go:228-243 | filtering the sorted required names gives the sorted list of the missing ones |
| `OptRequired.OneOfTwoMissing` | optsparser.go:236-246 | with two required names of which only the first is set, the error names the second alone, dashed |
| `OptRequired.ParseError` | optsparser.go:205-246 | a help request and a library failure are passed on as the error |
| `OptRequired.ParseErrorIff` | optsparser.go:216-246 | a parse has no error exactly when every required name was set directly or through its alias; otherwise the error lists the missing names, sorted, dashed and joined by ", " |
| `OptUsage.DescrLongOpt` | optsparser.go:325-379 | the definition of one option's entry; its properties are stated by `ShortFirstMirrors`, `AliasedLongHasTwoDashes`, `DefaultText` and `AnnotationDistinguishes` |
| `OptUsage.ShortFirstMirrors` | optsparser.go:342-357 | with an alias, the short-first setting chooses which form comes before the join text; without one the setting changes nothing |
| `OptUsage.AliasedLongHasTwoDashes` | optsparser.go:342-351 | an option with an alias prints its long name after two dashes, however long the name is |
| `OptUsage.DefaultText` | optsparser.go:366-370 | an empty default prints as two double quotes; any other default prints as itself, so the text is never empty |
| `OptUsage.AnnotationDistinguishes` | optsparser.go:362-373 | a required option never shows its default; otherwise two defaults print alike exactly when equal or when one is "" and the other is "\"\"" |
| `OptUsage.ErrorLineIff` | optsparser.go:401-403 | no error line exactly when there is no error or the first is the help request; only the first error counts |
| `OptUsage.Step` | optsparser.go:420-433 | the definition of one pass of the usage loop; `Parser.UsageEntry` is proved equal to it |
| `OptUsage.RenderSteps` | optsparser.go:416-434 | the definition of the whole usage loop; `Parser.PrintEntries` is proved equal to it, `RenderMatchesLines` says what it prints, and `CrashSticks` and `MissingFlagCrashes` say when it crashes |
| `OptUsage.RenderMatchesLines` | optsparser.go:416-434 | with separators numbered in order and no option posing as the expected separator key, the loop prints every entry as its kind says, never crashes, and ends expecting the next separator |
| `OptUsage.CrashSticks` | optsparser.go:420-434 | once an entry cannot be looked up the loop has crashed, and later entries change nothing |
| `OptUsage.MissingFlagCrashes` | optsparser.go:420-434 | an entry that is not a defined flag makes the usage loop crash |
| `OptRegistry.SepRound` | optsparser.go:161-169 | the definition of one separator round; `SepRoundOutcome` and `SepRoundKeeps` state its properties, and `Parser.AddOneSeparator` is proved equal to it |
| `OptRegistry.AddSeps` | optsparser.go:160-170 | the definition of the separator loop; `AddSepsCount`, `AddSepsOrder`, `AddSepsFlags`, `AddSepsOthers`, `AddSepsFailure` and `AddSepsKeeps` state its properties, and `Parser.AddSeparator` is proved equal to it |
| `OptRegistry.AddSepsStops` | optsparser.go:161-169 | after a separator whose key was already defined (the panic), the remaining texts change nothing |
| `OptRegistry.KeepsLayoutAfterAppend` | optsparser.go:279-281 | appending a defined entry to the order, when the tables only grow, keeps every entry defined and the separators numbered in order |
| `OptRegistry.AppendKeeps` | optsparser.go:279-293 | registering one more option keeps the tables consistent and in step with the separator counter |
| `OptRegistry.SepRoundKeeps` | optsparser.go:161-169 | a separator round that does not panic keeps the tables consistent and the separators numbered in order |
| `OptRegistry.AddSepsKeeps` | optsparser.go:160-170 | adding separators without a panic keeps the tables consistent |
| `OptRegistry.AddSepsCount` | optsparser.go:160-170 | one entry is placed per text, up to and including the first that panics; the counter advances once per entry; a panic names the key of the last placed entry |
| `OptRegistry.AddSepsOrder` | optsparser.go:161-167 | the placed entries are exactly the consecutive separator keys from the old counter, all marked as separators |
| `OptRegistry.AddSepsFlags` | optsparser.go:161-168 | every placed separator except one that panicked defines its key with its text as usage and no default |
| `OptRegistry.AddSepsOthers` | optsparser.go:163 | once any separator is placed, the empty name is registered as a separator and a required empty name is marked as added; short links and style are unchanged |
| `OptRegistry.AddSepsFailure` | optsparser.go:160-170 | the loop panics exactly at the first separator key, counting from the counter, that the flag table already held |
| `OptRegistry.SepRoundOutcome` | optsparser.go:165-168 | one round panics exactly when its key is already defined, and advances the counter by one |
| `OptRegistry.SyncedRenders` | optsparser.go:416-434 | tables the public methods keep consistent, with no option posing as a separator key, render every entry as its kind says, without a crash, and stop at the counter value |
| `OptRegistry.SkippedKeyCrashes` | optsparser.go:160-170 | after the counter was left one past the last separator, as a test-mode `Usage` leaves it, one more separator gets a key the next rendering takes for an option without a record, so that rendering crashes |
| `OptsParser.SortedNames` | optsparser.go:228-233 | the collected required names, sorted, are exactly the set in the unique strictly sorted order |
| `OptsParser.MissingList` | optsparser.go:236-243 | the list holds the required names not set, in sorted order, each with its dash prefix |
| `OptsParser.Parser.constructor` | optsparser.go:36-56 | a new parser has empty tables, the default join text ", ", usage-on-fail on and every given name required and not yet added; its tables are consistent |
| `OptsParser.Parser.SetGeneralDescr` | optsparser.go:62-66 | sets the general description and returns the same parser |
| `OptsParser.Parser.SetLongShortJoinStr` | optsparser.go:381-385 | sets the join text and returns the same parser |
| `OptsParser.Parser.SetShortFirst` | optsparser.go:387-391 | sets the short-first switch and returns the same parser |
| `OptsParser.Parser.SetUsageOnFail` | optsparser.go:393-397 | sets the usage-on-fail switch and returns the same parser |
| `OptsParser.Parser.DefineNames` | optsparser.go:72-75 | defines the long name, then the short one; an already-defined name panics with that name, leaving the long one defined when only the short clashed |
| `OptsParser.Parser.ParseOptName` | optsparser.go:258-296 | a refused specifier changes nothing; an accepted one records its type and alias, appends the long name to the order, links the short name, and marks a required long name as added |
| `OptsParser.Parser.Add` | optsparser.go:70-156 | a refused specifier panics before any change; otherwise the registry is updated, then the long and short names are defined, and a clash panics with the clashing name; the tables stay consistent |
| `OptsParser.Parser.NextSep` | optsparser.go:450-453 | returns the key for the current counter and advances the counter by one |
| `OptsParser.Parser.AddSeparator` | optsparser.go:160-170 | the new tables are the separator loop's result; it panics with the first key that was already defined; the tables stay consistent |
| `OptsParser.Parser.AddOneSeparator` | optsparser.go:161-169 | one loop round, equal to the separator round of the tables |
| `OptsParser.Parser.RequiredSet` | optsparser.go:298-323 | returns the required names that the set flags account for, and marks exactly those as seen |
| `OptsParser.Parser.Parse` | optsparser.go:180-256 | a pending required name panics before anything changes; otherwise the parse error is returned, or the usage text is printed first when usage-on-fail is on, which then exits, returns in test mode, or crashes |
| `OptsParser.Parser.ParseRegistered` | optsparser.go:188-256 | the same as `Parse`, once every required name has been registered |
| `OptsParser.Parser.Report` | optsparser.go:205-214 | with no error, or usage-on-fail off, returns the error without printing; otherwise prints the usage text and takes its exit |
| `OptsParser.Parser.ParseErr` | optsparser.go:216-246 | the error the parse ends with: the library's error, none when every required name was set, or the sorted and dashed list of missing names |
| `OptsParser.Parser.Usage` | optsparser.go:399-448 | appends the error line, header and description, then every entry; crashes on a name the tables lack, or else exits with 1 (returns in test mode and marks the call); on tables the public methods built, with no option posing as a separator key, it never crashes, prints every entry as its kind says, and leaves the counter one past the last separator |
| `OptsParser.Parser.PrintEntries` | optsparser.go:416-434 | the loop prints the rendering of the order with the counter reset, and stops at the first crash |
| `OptsParser.Parser.UsageEntry` | optsparser.go:420-433 | one entry: the expected separator key prints its text and advances the expectation; a missing flag or description crashes |
| `Ymd.ParseYmd` | test_data_test.go:264-281 | the definition of what `Set` stores or returns; `ParseYmdIff`, `YmdRoundTrip` and the `Pieces` lemmas state its properties |
| `Ymd.Show` | test_data_test.go:261-263 | the definition of the printed text, with Go's truncating `/` and `%`; `ShowDate`, `ShowMirror` and `ShowNegative` state its properties |
| `Ymd.YmdVar.String` | test_data_test.go:261-263 | the stored value printed by `Show` |
| `Ymd.ParsePieces` | test_data_test.go:266-272 | when every piece parses, the result holds each piece's 32-bit value in order |
| `Ymd.YmdVar.constructor` | test_data_test.go:260 | a date variable holds the integer it is made from |
| `Ymd.YmdVar.Set` | test_data_test.go:264-281 | a text that parses stores its encoding; any error leaves the stored value unchanged and is reported |
| `Ymd.PiecesStop` | test_data_test.go:266-270 | once a piece fails, the later pieces are not read and the error stays the same |
| `Ymd.PiecesFirstFailure` | test_data_test.go:266-270 | a failure names the first piece that does not parse, and every earlier piece parsed |
| `Ymd.PiecesAllParse` | test_data_test.go:266-272 | pieces that each parse are all read, in order |
| `Ymd.ParseYmdIff` | test_data_test.go:264-281 | `Set` succeeds exactly when the text has three dot-separated 32-bit integers, and then stores `y*10000 + m*100 + d` |
| `Ymd.OkHasThree` | test_data_test.go:264-281 | a text `Set` accepts has three dot-separated pieces that each parse, and is stored as their encoding |
| `Ymd.ThreeAreOk` | test_data_test.go:264-281 | three dot-separated pieces that each parse are accepted |
| `Ymd.YmdRoundTrip` | test_data_test.go:264-281 | any three 32-bit integers written with `%d` and joined with dots are read back as their encoding |
| `Ymd.ShowDate` | test_data_test.go:261-263 | a date with month and day below 100 prints exactly its year, month and day |
| `Ymd.ReferenceDate` | test_data_test.go:32 | the tests' "2022.10.14" is stored as 20221014 |
| `Ymd.SlashesRejected` | test_data_test.go:230 | "2022/10/14" is rejected as one piece that does not parse |
| `Ymd.OnePieceFails` | test_data_test.go:266-270 | dot-free text that is not an integer is rejected as a whole |
| `Ymd.ShowMirror` | test_data_test.go:261-263 | a negative value prints, in each of its three places, the negation of what its absolute value prints there, so no printed part is positive |
| `Ymd.QuotMirror` | test_data_test.go:262 | Go's `/` and `%` of a negative number are the negations of those of its absolute value |
| `Ymd.QuotRem` | test_data_test.go:261-263 | for a non-negative `a = q*b + r` with `0 <= r < b`, Go's `/` and `%` give back `q` and `r` |
| `Ymd.ShowNegative` | test_data_test.go:262 | the value -20221014 prints as "Year -2022 month -10 day -14" |
| `Prototype.ProtoDescrLongOpt` | optparser.go:130-167 | the definition of one entry of the prototype's usage text; `HintIff`, `DescrLayout` and `DescrOrder` state its properties |
| `Prototype.HintIff` | optparser.go:137-144 | the bool hint is printed exactly for the "bool" tag, and the hint adds no line break |
| `Prototype.DescrLayout` | optparser.go:130-167 | when none of its parts breaks a line, an entry is the short line (if there is an alias), the long line and the usage line with the default, each ended by a line break |
| `Prototype.DescrOrder` | optparser.go:146-151 | with an alias an entry has four pieces, starting with the short form; without one it has three, starting with the long form |
| `Prototype.Header` | optparser.go:170-174 | the header omits the program name exactly when the name is empty |
| `Prototype.Render` | optparser.go:169-181 | the definition of the prototype's usage loop; `RenderIff` and `RenderCrashSticks` state its properties, and `ProtoParser.PrintDescrs` is proved equal to it |
| `Prototype.RenderIff` | optparser.go:169-181 | the usage loop crashes exactly when a listed name lacks a flag or a description; otherwise it prints every entry in order |
| `Prototype.RenderCrashSticks` | optparser.go:176-180 | after an entry crashes, later entries change nothing |
| `Prototype.AddOptSpec` | optparser.go:74-118 | the definition of one registration; `AddOptKeepsValid`, `BadShortIff`, `AddOptRecords`, `UnsupportedIff` and `AddOptDoneIff` state its properties, and `ProtoParser.AddOpt` is proved equal to it |
| `Prototype.AddOptKeepsValid` | optparser.go:74-118 | a registration that completes keeps every listed name defined and described |
| `Prototype.BadShortIff` | optparser.go:76-80 | the short-length panic happens exactly for a short half that is not one byte, and nothing has changed yet |
| `Prototype.AddOptRecords` | optparser.go:82-91 | past that check the description, the order and the alias are recorded, whatever happens afterwards |
| `Prototype.UnsupportedIff` | optparser.go:94-117 | an unknown tag panics after recording and before the flag table is touched, and only an unknown tag does |
| `Prototype.AddOptDoneIff` | optparser.go:94-117 | a registration completes exactly when the short half is fine, the tag is known, and both names are new and different; both are then defined with the usage and the default |
| `Prototype.UnsupportedBreaksUsage` | optparser.go:82-116 | an unknown tag under a new bar-free name leaves it listed without a flag, so the usage loop crashes |
| `Prototype.ProtoParser.constructor` | optparser.go:58-72 | a new prototype parser has empty tables and consistent state |
| `Prototype.ProtoParser.AddOpt` | optparser.go:74-118 | the new tables and the outcome are those of the registration specification; a completed registration keeps the tables consistent |
| `Prototype.ProtoParser.Parse` | optparser.go:120-128 | records the program name; a command line that does not parse prints the usage text and never exits |
| `Prototype.ProtoParser.Usage` | optparser.go:169-181 | prints the header, then every entry's description, crashing on a name without a flag or description; consistent tables never crash |
| `Prototype.ProtoParser.PrintDescrs` | optparser.go:176-180 | the loop prints the rendering of the order, and stops at the first crash |

## Left out

- The separator's type tag is modelled as its own constructor
  `TSeparator`. This assumes its text differs from the nine value tags,
  which the Go code compares as plain strings (optsparser.go:263). If it
  equalled one of them, options of that type would take the separator
  branch.
- `optIndent` is part of `Fprintf` format strings (optsparser.go:345, 349,
  356, 427). The model appends it as literal text, which is right only if
  it holds no `%` verb.
- `Usage` can be called directly with any `error` (optsparser.go:401-403).
  Two cases of that are not modelled. A nil first error prints
  "\nUsage ERROR: <nil>\n". An error that wraps `flag.ErrHelp` hides the
  line, since `errors.Is` unwraps. The `Error` datatype holds only the help
  request and a message, which is all the parser's own calls pass.
- The date option assumes Go's `int` is 64 bits wide, so every value `Set`
  stores fits. With a 32-bit `int`, `ymd[0] * 10000` at
  test_data_test.go:278 could wrap around, and this is not modelled.
- Go strings are byte sequences and may hold bytes that are not valid
  UTF-8. The model's strings are sequences of characters, so such names
  and texts are not represented. Byte lengths are the UTF-8 widths of the
  characters.
- The flag library's own work is outside this model: reading `os.Args`,
  converting values, and calling `flag.Value.Set`. Parsing is represented
  by its outcome only, so option values are not modelled. This also covers
  `float64`, `time.Duration`, `uint` and `uint64` parsing, and float
  arithmetic.
- Go's newer name checks in `flag.Var` are not modelled: a name starting
  with "-" or holding "=" panics. So is the "flag redefined" message the
  library prints before it panics on a clash. Both belong to the flag
  library.
- `OptsParser.Parser.Add`: stands for the nine `Add*` wrappers, with the
  default already turned into the text the flag table keeps. `AddVar`'s
  default is the value's `String()` at registration time, which is passed
  in. The value pointers are not modelled.
- The panic texts that `doPanic` formats with `%q` are not written out.
  The `Reason` datatype carries the same arguments instead. The same holds
  for the date option's error texts (`YmdError`).
- `%v` of an error is its message. Only the help-request error has a fixed
  text here.
- The values of `optIndent`, `helpIndent`, `sepPrefix` and the separator's
  type tag are not part of this model. They are constants without a value.
- While the flag library parses, `Parse` redirects its output and then
  restores it (lines 193-203). In the model nothing is printed during that
  step.
- `Prototype.ProtoParser.Usage`: prints the flag's default text where the
  prototype prints `f.Value`'s current text. Values are not modelled, so
  the two coincide unless the parse set the option before failing.
- The prototype's type assertions on `val` and `dfltValue` are not
  modelled. These panic when the caller passes the wrong Go type. The
  float tag's `float64` handling is not modelled either.
- `Prototype.ProtoParser.Parse`: `os.Args[0]` and the parse outcome are
  parameters. The output is printed with `fmt.Print` to standard output,
  modelled as the `output` field.
- The `Usage` stub that `NewParser` installs in the flag set prints
  nothing, so it is not modelled. Neither are the `OptsPanic` type and the
  `panic` machinery.
- In test mode `Usage` leaves the separator counter one past the last
  separator. A later `AddSeparator` then skips a key. The next `Usage`
  does not expect the skipped-to key, so it prints that entry as an
  option. `longOpts` has no record for it, and Go dereferences a nil
  pointer (optsparser.go:325-330, 433). `OptRegistry.SkippedKeyCrashes`
  proves this crash on the registry value. The method sequence
  `Usage`, `AddSeparator`, `Usage` is not stated as one contract.
