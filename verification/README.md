# Verified models of the systemd tools' algorithms

A Dafny model of the self-contained algorithms of oxidized-systemd: version orders, glob matching,
calendar arithmetic, timestamps and time spans as text, core dump metadata as JSON, the boot menu, the
line diff and directory scan of systemd-delta, TPM2 sealing, and Varlink framing. `dafny verify
dfyconfig.toml` checks all of it.

| file | what it models |
|---|---|
| `KernelVersion.dfy` | `compare_kernel_versions`: a two-pointer scan in six phases, as the lexicographic order of one key per string, and what appending text does to a version |
| `Glob.dfy` | the greedy and the backtracking glob matcher |
| `Calendar.dfy` | day numbers and dates: two closed forms and a counting loop |
| `Timestamp.dfy` | printing and reading timestamps |
| `TimeSpan.dfy`, `TimeSpanParser.dfy`, `TimeSpanAccuracy.dfy` | the two span printers, the parser, and the accuracy of the second printer |
| `Json.dfy`, `CoreDump.dfy` | JSON escaping, the line-based object parser, the metadata writer and its two readers |
| `BootVersion.dfy`, `BootEntries.dfy` | bootctl's version order, menu order and default marking |
| `LineDiff.dfy`, `DropIns.dfy` | systemd-delta's diff and directory scan |
| `Tpm2Wire.dfy`, `Tpm2Blob.dfy`, `Tpm2Seal.dfy` | TPM marshalling, the blob codec, and sealing and unsealing against an abstract TPM |
| `VarlinkFraming.dfy` | NUL framing over a stream cut into reads |
| `Lexicographic.dfy`, `Text.dfy`, `Decimal.dfy`, `Bytes.dfy`, `Division.dfy` | shared: sequence order, string operations, decimal notation, byte notation, division |

Code that changes things step by step is a method with loops, or a class (`CmdBuilder`, `RespParser`,
`Tpm`), proved against a function of its inputs or a stated property; the lemmas are about those
functions. Three things come in as parameters: the floating point of the span parser (a function that
is exact on integer products below 2^53), the clock (the date that a bare time of day takes), and the
TPM's hash, digest sizes and object wrapping.

Where the code does not do what its comments say, the model follows the code:

- The comment on `compare_kernel_versions` says a longer version is newer unless the extra part starts
  with `~`. `KernelVersion.SuffixLaw` says for every added text what it does, and
  `KernelVersion.LongerIsNewerExactly` when it makes the version newer. Besides `~`, a `^` after `-` and
  a `.` after `-` or `^` make it older; text without a valid byte, and zeros after a number zero, leave
  it equal (`00` is `0`, and `1!` is `1`), or leave the decision to what follows; and any text after a
  final `~` makes it newer. `KernelVersion.SuffixRuleFails` has inputs for each of these.
- `format_timespan_full` promises that the accuracy bounds the precision shown.
  `TimeSpanAccuracy.AccuracyExactly` proves that it does exactly for accuracies whose leading digit is 1
  (powers of ten among them) and for those of a second and more; at accuracy 5, for instance, up to 9
  microseconds are lost.
- `matches_kernel_glob` treats `?` as an ordinary character, so it agrees with the backtracking matcher
  exactly on patterns without one (`Glob.GreedyIsComplete`).
- `try_parse_datetime` takes days up to 31 in every month; `Timestamp.AcceptsExactly` shows that 31 February is
  read as the day number of the closed form, a day in March.
- `version_compare` of bootctl falls back to text where a digit run does not fit 64 bits, and is then
  cyclic; `BootVersion.TransitiveExactly` gives the bound.
- The device reports at most eight PCRs at once, and sealing does not ask again.
  `Tpm2Seal.PoliciesAgreeExactly` shows that a policy sealed to the first eight of more PCRs is met by no
  PCR state at all, unless the hash has a collision between two texts that the lemma names. Nothing is
  assumed of the hash.
- `put_tpm2b` writes the low 16 bits of a length. `Tpm2Wire.LoadReadsBack` shows that a load command
  carries its two parts exactly when both are shorter than 65536 bytes.

## Model

| member | source | states |
|---|---|---|
| KernelVersion.CompareKernelVersions | crates/analyze/src/main.rs:1253-1359 | the scan ends on every pair of byte strings, NULs included, and returns the lexicographic order of two keys, each a function of its own string |
| KernelVersion.CompareSeparators | crates/analyze/src/main.rs:1296-1306 | the three separator phases either decide as the keys do or leave both keys equally far along |
| KernelVersion.CompareDigits | crates/analyze/src/main.rs:1322-1337 | stripping zeros, then length, then text orders digit runs of any length as the numbers they denote |
| KernelVersion.StrippedRuns | crates/analyze/src/main.rs:1322-1337 | the order of two numbers, from zero-stripped runs |
| KernelVersion.NumberAgainstOther | crates/analyze/src/main.rs:1308-1321 | a numeric segment is newer than an alphabetic or empty one |
| KernelVersion.AlphaStep | crates/analyze/src/main.rs:1338-1356 | letter runs are ordered as text, a proper prefix older |
| KernelVersion.TotalPreorder | crates/analyze/src/main.rs:1246-1359 | the order is reflexive, sign-antisymmetric and transitive, with equality only through equality |
| KernelVersion.EndAgainst | crates/analyze/src/main.rs:1280-1306 | from any phase of a round, what any text is worth against the end of a string |
| KernelVersion.SuffixLaw | crates/analyze/src/main.rs:1246-1359 | for every version without NUL and every text appended to it, whether the result is newer, equal or older |
| KernelVersion.LongerIsNewerExactly | crates/analyze/src/main.rs:1246-1359 | exactly when appended text makes a version newer; always when it starts with a letter, and never when with `~` after another byte |
| KernelVersion.SuffixRuleFails | crates/analyze/src/main.rs:1246-1252 | concrete versions at which the commented rule fails: equal, older, and newer after `~` |
| KernelVersion.ValueAppend | crates/analyze/src/main.rs:1322-1337 | digits put behind a number make it bigger unless both are zero |
| KernelVersion.OneByteMore | crates/analyze/src/main.rs:1246-1359 | what each single byte behind a version that ends in a letter or digit does: letters, `-`, `.` and `^` newer, `~` older, any other byte nothing |
| KernelVersion.RankDecides | crates/analyze/src/main.rs:1278-1321 | two texts that start with different kinds of bytes are ordered as `~`, the end, `-`, `^`, `.`, letters, digits |
| KernelVersion.SeparatorCancels | crates/analyze/src/main.rs:1281-1306 | one separator in front of more version on both sides does not count |
| KernelVersion.OtherByteSkipped | crates/analyze/src/main.rs:1270-1276 | a byte that is no letter, digit or separator does not count |
| KernelVersion.LetterRuns | crates/analyze/src/main.rs:1338-1356 | runs of letters are ordered as text, and what follows decides between equal ones |
| KernelVersion.NumberRuns | crates/analyze/src/main.rs:1308-1337 | runs of digits are ordered as numbers, and what follows decides between equal ones |
| KernelVersion.CommonFront | crates/analyze/src/main.rs:1253-1359 | a common front that ends in a letter or digit does not count, unless a text goes on with its last run |
| Glob.GlobMatchInner | crates/analyze/src/main.rs:2356-2373 | the backtracking matcher decides the matching relation |
| Glob.MatchesKernelGlob | crates/analyze/src/main.rs:1215-1240 | without a `*` the greedy matcher says whether the pattern occurs in the version; with one it decides the pattern with its end left open; `?` is ordinary |
| Glob.LeftmostSuffices | crates/analyze/src/main.rs:1231-1234 | placing a literal part at its leftmost occurrence loses no match |
| Glob.GreedyIsComplete | crates/analyze/src/main.rs:1215-1240 | greedy agrees with backtracking on the pattern with its open ends written out (one more `*` where it has one) for every version, exactly when the pattern has no `?` |
| Glob.QuestionFree | crates/analyze/src/main.rs:2350-2373 | without `?` the two readings of a pattern match the same texts |
| Calendar.YearOfEraFinds | crates/analyze/src/main.rs:851-853 | the year formula is right on every day of the 400-year era |
| Calendar.CivilOfDays | crates/analyze/src/main.rs:829-860 | every valid proleptic Gregorian date, negative years included, is the date of its day number |
| Calendar.DaysOfCivil | crates/analyze/src/main.rs:829-860 | every day number has a valid date and is the day number of it |
| Calendar.NextDateIsNextDay | crates/analyze/src/main.rs:829-841 | the next calendar date has the next day number |
| Calendar.EraIsFloor | crates/analyze/src/main.rs:836 | the truncating era computation is a floor division |
| Calendar.FirstOfNext | crates/coredumpctl/src/main.rs:399-433 | the firsts of the next month and year lie month and year lengths ahead in the closed form |
| Calendar.DaysToYmd | crates/coredumpctl/src/main.rs:395-434 | the counting loop ends with the date of the closed form for every day from the epoch on |
| Timestamp.ReadsBack | crates/analyze/src/main.rs:740-884 | reading a printed timestamp, weekday included, gives its second up to the end of the year 9999, and nothing after it |
| Timestamp.YearsFromEpoch | crates/analyze/src/main.rs:800-805 | days from the epoch have years from 1970, and 9999 ends where it should |
| Timestamp.StripFrame | crates/analyze/src/main.rs:744-763 | zone and weekday come off a printed timestamp |
| Timestamp.ParseDateText | crates/analyze/src/main.rs:779-789 | a printed date is read back, with years of any number of digits |
| Timestamp.ParseClockText | crates/analyze/src/main.rs:807-818 | a printed time of day is read back |
| Timestamp.FormatTimestampCounting | crates/coredumpctl/src/main.rs:378-393 | the printer of coredumpctl writes the text of systemd-analyze without its weekday |
| Timestamp.WeekdayOfDate | crates/analyze/src/main.rs:862-865 | the weekday printed for every date is the one of Zeller's congruence |
| Timestamp.PrintedFields | crates/analyze/src/main.rs:867-884 | the text, place by place: weekday, year, month, day, hour, minute, second, marks and zone |
| Timestamp.AcceptsExactly | crates/analyze/src/main.rs:740-827 | a full timestamp is read exactly when every field is in range and the weekday is the date's, days up to 31 in any month |
| Timestamp.AcceptsPlain | crates/analyze/src/main.rs:765-827 | without weekday and zone, with a space or a T, and with a fraction of any length of which six digits count |
| Timestamp.AcceptsDateOnly | crates/analyze/src/main.rs:773-790 | a date alone is its midnight |
| Timestamp.AcceptsClockOnly | crates/analyze/src/main.rs:767-778 | a time of day alone is today's |
| TimeSpan.Display | crates/analyze/src/main.rs:416-450 | the printer of whole units writes the greedy terms from the largest unit on |
| TimeSpan.Greedy | crates/analyze/src/main.rs:441-447 | greedy terms are in strictly descending units |
| TimeSpan.GreedyConserves | crates/analyze/src/main.rs:441-447 | the greedy counts add up to the span |
| TimeSpan.DisplayMeans | crates/analyze/src/main.rs:416-450 | the text is whole terms that add up to the span, the largest unit that fits first at every place |
| TimeSpan.WholeUnitsPrint | crates/analyze/src/main.rs:426-436 | the nine units with their sizes, as the texts of their multiples |
| TimeSpan.FormatTimespanFull | crates/analyze/src/main.rs:481-554 | the printer with an accuracy writes the rounded terms, for every span and accuracy |
| TimeSpan.LargestUnitFirst | crates/analyze/src/main.rs:500-545 | the first term is the whole count of the largest unit that fits; decimals only below a minute, in the last term |
| TimeSpan.SecondsWithDecimals | crates/analyze/src/main.rs:473-480 | at accuracy 1, seconds below a minute have six decimals |
| TimeSpan.CutToAccuracy | crates/analyze/src/main.rs:519-530 | the digit-counting loops leave the decimal places of the unit less those of the accuracy, and the remainder in whole steps |
| TimeSpanParser.ParseTimeUnit | crates/analyze/src/main.rs:557-626 | the unit at the start of a text: capital M, the first suffix that applies, or seconds |
| TimeSpanParser.UnitOfPrinted | crates/analyze/src/main.rs:607-618 | the ordered suffix table gives every printed unit its own multiplier and length |
| TimeSpanParser.UnitByName | crates/analyze/src/main.rs:557-618 | each of the suffixes, whatever others it starts with, is worth its own size |
| TimeSpanParser.BareUnits | crates/analyze/src/main.rs:597-623 | a capital M is a month, and no unit is seconds |
| TimeSpanParser.Parse | crates/analyze/src/main.rs:359-413 | the parser is worth the saturating sum of its tokens, with infinity, plain seconds and malformed text apart |
| TimeSpanParser.OneToken | crates/analyze/src/main.rs:376-402 | number, white space or none, and unit are one token |
| TimeSpanParser.Malformed | crates/analyze/src/main.rs:386-388 | text without a number where one is due is refused |
| TimeSpanParser.EvaluateSaturates | crates/analyze/src/main.rs:401 | terms are added up and stop at the largest 64-bit number |
| TimeSpanParser.PlainNumberIsSeconds | crates/analyze/src/main.rs:366-372 | a plain number is seconds, saturating |
| TimeSpanParser.TokensOfRendered | crates/analyze/src/main.rs:382-406 | the parser cuts a printed text, decimals included, into exactly its terms |
| TimeSpanParser.ReadsBack | crates/analyze/src/main.rs:359-450 | parsing the printed span gives it back for every span below 2^53 and for infinity |
| TimeSpanAccuracy.TextWithinAccuracy | crates/analyze/src/main.rs:481-554 | the text with decimals is worth at most the span and less than the accuracy short of it, units descending |
| TimeSpanAccuracy.AccuracyExactly | crates/analyze/src/main.rs:473-480 | the bound holds for all spans exactly when the accuracy is led by a digit 1 or is a second or more |
| TimeSpanAccuracy.CoarserThanPromised | crates/analyze/src/main.rs:526-531 | the span that loses an accuracy or more, for every other accuracy |
| TimeSpanAccuracy.PowersOfTenBound | crates/analyze/src/main.rs:481-554 | powers of ten bound the loss, and accuracy 1 loses nothing |
| TimeSpanAccuracy.DecimalsDenote | crates/analyze/src/main.rs:517-540 | the decimals shown denote the remainder in whole steps at exactly their places |
| Json.JsonEscape | crates/coredump/src/main.rs:475-491 | escaping, character by character |
| Json.JsonUnescape | crates/coredump/src/main.rs:530-563 | unescaping, with unknown, broken and missing escapes |
| Json.UnescapeEscape | crates/coredump/src/main.rs:475-563 | unescaping undoes escaping on every string |
| Json.EscapeOneLine | crates/coredump/src/main.rs:475-491 | escaped text holds no newline or carriage return |
| Json.EscapeIsJson | crates/coredump/src/main.rs:475-491 | to a reader of JSON strings, section 7 of RFC 8259, escaped text is the text |
| Json.EscapedEndsAtQuote | crates/coredump/src/main.rs:475-491 | a quoted escaped string ends at the quote put there, whatever follows |
| Json.UnescapePair | crates/coredump/src/main.rs:534-557 | what a backslash and a character stand for; one that is not known stays |
| Json.UnescapeOther | crates/coredump/src/main.rs:534-560 | other characters and a last backslash stay |
| Json.UnescapeUnicode | crates/coredump/src/main.rs:543-551 | four hexadecimal digits are their character; surrogates and anything else vanish |
| Json.ParseJsonObject | crates/coredump/src/main.rs:496-527 | the parser gives the entries of the lines between the braces, a later one replacing an earlier one |
| Json.EntryOfLine | crates/coredump/src/main.rs:505-523 | trimming takes a written line apart into exactly its key and its value |
| CoreDump.ToJson | crates/coredump/src/main.rs:396-440 | the writer pushes the eighteen lines in order, all but the last with a comma |
| CoreDump.LinesMean | crates/coredump/src/main.rs:398-437 | the text of all eighteen lines, each value under its own key |
| CoreDump.RequiredAndDefaults | crates/coredump/src/main.rs:444-470 | five numbers are required, the rest has defaults, and only `true` is true |
| CoreDump.EveryFieldIsFound | crates/coredumpctl/src/main.rs:203-233 | a reader finds every written value under its key, whatever the strings hold |
| CoreDump.ReadersRecover | crates/coredump/src/main.rs:442-471 | coredump reads back exactly the record it wrote, and coredumpctl its fourteen fields |
| CoreDump.SignalNamePlain | crates/coredump/src/main.rs:376-393 | signal names may be written unescaped |
| BootVersion.SplitVersion | crates/bootctl/src/main.rs:1136-1169 | the splitting loop gives the maximal runs of digits and of other characters |
| BootVersion.SegmentsPartition | crates/bootctl/src/main.rs:1136-1169 | segments are not empty, of one kind, and together the version without its separators |
| BootVersion.SegmentsCut | crates/bootctl/src/main.rs:1136-1169 | text is cut at `.`, `-` and `_` and where digits and others meet |
| BootVersion.OneRunIsOneSegment | crates/bootctl/src/main.rs:1136-1169 | and nowhere else |
| BootVersion.VersionCompare | crates/bootctl/src/main.rs:1118-1133 | the comparison decides at the first differing segment, then by number of segments |
| BootVersion.SegmentKeyOrder | crates/bootctl/src/main.rs:1122-1130 | numbers, texts and mixtures of the two compare as their keys do |
| BootVersion.TotalPreorder | crates/bootctl/src/main.rs:1118-1133 | on versions whose digit runs fit 64 bits the order is a total preorder |
| BootVersion.TransitiveExactly | crates/bootctl/src/main.rs:1123-1126 | the order is transitive on all versions with digit runs below a bound exactly when the bound is at most 2^64 |
| BootEntries.EntryTransitive | crates/bootctl/src/main.rs:1056-1069 | sort key, version descending and id make a transitive order |
| BootEntries.EntryAntisymmetric | crates/bootctl/src/main.rs:1056-1069 | the order is antisymmetric, and only entries of one id are equal in it |
| BootEntries.SortedByNeighbours | crates/bootctl/src/main.rs:1056-1069 | a menu in order between neighbours is in order throughout |
| BootEntries.StableSortIsMenu | crates/bootctl/src/main.rs:1043-1069 | a list is in order, holds the entries found, and those that compare equal as found, exactly when it is the menu; one id may be found on both partitions |
| BootEntries.MenuIsDetermined | crates/bootctl/src/main.rs:1043-1069 | two sorted lists of the same entries, equal ones in the same order, are one list |
| BootEntries.DistinctIdsFix | crates/bootctl/src/main.rs:1043-1069 | where no id is found twice the menu does not depend on the order the entries were found in |
| BootEntries.MenuByContents | crates/bootctl/src/main.rs:1056-1069 | in the menu sort keys ascend, under one sort key versions descend, and under one version ids ascend |
| BootEntries.PatternMeans | crates/bootctl/src/main.rs:1103-1115 | a pattern selects its own id, ids with the prefix before a final `*`, or the id less or plus `.conf` |
| BootEntries.MarkEntries | crates/bootctl/src/main.rs:1071-1100 | marks exactly the entries the patterns select, in place, and the first one when nothing is the default |
| LineDiff.SimpleDiff | crates/delta/src/main.rs:359-459 | no hunk exactly for equal lists; else one hunk whose sides are the two lists from the common start on, with right counts, in which a line is removed only where it is not the new line due, and added only when the old ones are used up |
| LineDiff.HunkStart | crates/delta/src/main.rs:415-433 | the hunk starts three lines before the first difference, or at the front |
| LineDiff.HunkIsDetermined | crates/delta/src/main.rs:402-447 | there is only one such hunk |
| LineDiff.DiffApplies | crates/delta/src/main.rs:402-447 | applying the hunk to the old lines gives the new, and the undone hunk turns the new into the old |
| LineDiff.ApplyLinesGivesNewSide | crates/delta/src/main.rs:402-447 | walking a hunk along its old side gives its new side |
| DropIns.FindDropIns | crates/delta/src/main.rs:177-196 | finds every conf file of the unit's drop-in directories once, directory by directory |
| DropIns.CollectFiles | crates/delta/src/main.rs:217-253 | gives for every name the directories that hold a file of it, highest priority first |
| DropIns.HasFileMeans | crates/delta/src/main.rs:230-244 | what counts as a file: a file or link that is no drop-in directory |
| DropIns.LocationsByPriority | crates/delta/src/main.rs:221-250 | the first location is the first directory that has the file, and the last the last |
| DropIns.ScanName | crates/delta/src/main.rs:256-321 | the entries of one name: its verdict, if any, and all its drop-ins |
| DropIns.ScanOrphansIn | crates/delta/src/main.rs:331-352 | units that exist only as drop-in directories are covered once each |
| DropIns.ScanDirs | crates/delta/src/main.rs:200-356 | every entry is the one its top place calls for, and every place that calls for one has exactly one; names that have files come first, ascending, each with its verdict before its drop-ins, and units without files last |
| DropIns.SeveralCopies | crates/delta/src/main.rs:276-308 | a name in two or more directories has exactly one entry of the four file kinds, the copy of highest priority on top |
| DropIns.SeveralCopiesKinds | crates/delta/src/main.rs:276-308 | the kind and the bottom of the entry of several copies, from links and contents of the first and the last |
| DropIns.SingleCopyKinds | crates/delta/src/main.rs:257-275 | a single copy has an entry exactly when masked or redirected |
| DropIns.EveryDropInOnce | crates/delta/src/main.rs:310-353 | every conf file of a drop-in directory has exactly one extension entry, with a base exactly when the unit has a file |
| DropIns.DropInMeans | crates/delta/src/main.rs:177-196 | a drop-in is a file with a stem and the extension `conf` in a directory named after the unit |
| DropIns.ExtensionsMean | crates/delta/src/main.rs:310-353 | every extension entry is of a drop-in, under the unit's file of highest priority if there is one |
| Tpm2Blob.Serialize | crates/creds/src/tpm2.rs:125-135 | the bytes of a blob, lengths written as 32 bits |
| Tpm2Blob.Deserialize | crates/creds/src/tpm2.rs:139-180 | reads every blob on the front of the data with its exact length, whatever follows, and whatever is read writes back the bytes taken |
| Tpm2Blob.OneReading | crates/creds/src/tpm2.rs:125-180 | the data determine the blob on their front |
| Tpm2Blob.SerializedBytes | crates/creds/src/tpm2.rs:125-135 | the bytes of a blob one by one, numbers least significant byte first |
| Tpm2Wire.CmdBuilder.Finalize | crates/creds/src/tpm2.rs:251-255 | patching the size in place makes the buffer the command, with everything put into it |
| Tpm2Wire.CommandBytes | crates/creds/src/tpm2.rs:196-202 | the bytes of a command: tag, size of all of it, code, parameters |
| Tpm2Wire.CmdBuilder.PutTpm2b | crates/creds/src/tpm2.rs:220-223 | appends a sized byte string and nothing else |
| Tpm2Wire.LoadCommand | crates/creds/src/tpm2.rs:726-742 | the builder writes the request that loads an object |
| Tpm2Wire.LoadReadsBack | crates/creds/src/tpm2.rs:219-237 | a TPM takes handle and parts out of a load request exactly when the lengths of both parts fit 16 bits |
| Tpm2Wire.LoadRequestBytes | crates/creds/src/tpm2.rs:726-742 | the bytes of a load request, with its empty password session |
| Tpm2Wire.ResponseTaken | crates/creds/src/tpm2.rs:272-295 | a response is taken exactly when it is as long as it says and carries no error |
| Tpm2Wire.RespParser.GetBytes | crates/creds/src/tpm2.rs:324-334 | takes bytes off the rest, or leaves it as it is when too short |
| Tpm2Wire.RespParser.GetTpm2b | crates/creds/src/tpm2.rs:337-340 | takes a sized byte string off the rest |
| Tpm2Wire.PcrIndices | crates/creds/src/tpm2.rs:597-602 | the PCRs of a mask below 24, ascending |
| Tpm2Wire.IndicesMean | crates/creds/src/tpm2.rs:597-602 | those are the bits of the mask among the lowest 24 |
| Tpm2Wire.SelectionMeans | crates/creds/src/tpm2.rs:470-487 | a TPM takes from a written selection the PCRs of the mask, and its bank |
| Tpm2Wire.SelectionBytes | crates/creds/src/tpm2.rs:470-487 | the bytes of a selection |
| Tpm2Wire.ParsePcrRead | crates/creds/src/tpm2.rs:579-613 | the reading loops over selections and digests, on any response |
| Tpm2Wire.PcrReadRoundTrip | crates/creds/src/tpm2.rs:569-613 | a TPM's answer is read as the PCRs of the mask with its digests |
| Tpm2Seal.PoliciesAgree | crates/creds/src/tpm2.rs:502-525 | with at most eight PCRs, or values from the kernel's files, the software policy is the session policy after PolicyPCR |
| Tpm2Seal.PolicyTextBytes | crates/creds/src/tpm2.rs:502-525 | what is hashed to a policy: a zero policy, the command code, the selection, the digest of the values |
| Tpm2Seal.PoliciesAgreeExactly | crates/creds/src/tpm2.rs:502-525 | the policy of the values seen before is the session policy of any later state exactly when those are the values now or the two are a hash collision; never the former when the device reported eight of more |
| Tpm2Seal.PolicyBindsValues | crates/creds/src/tpm2.rs:644-662 | two PCR states have one policy exactly when their selected values are the same or a hash collision |
| Tpm2Seal.ConcatInjective | crates/creds/src/tpm2.rs:507-512 | digests of one size can be told from their concatenation |
| Tpm2Seal.ReadPcrValues | crates/creds/src/tpm2.rs:846-860 | the device's report when it answers, all values from the files when it does not; there are values exactly when the device reports some or the kernel has files of the bank |
| Tpm2Seal.SealSecret | crates/creds/src/tpm2.rs:873-918 | wraps the secret under the policy of the values read, and always when they can be read and the later commands are answered; live handles on return are those on entry, whatever is rejected |
| Tpm2Seal.UnsealSecret | crates/creds/src/tpm2.rs:924-968 | gives a secret only out of a blob that opens to the PCR values, and always when all commands are answered; handles are conserved on every path |
| Tpm2Seal.SealingOpens | crates/creds/src/tpm2.rs:868-968 | a sealing opens exactly when the bank is there and the values seen at sealing are the values now or a hash collision |
| Tpm2Seal.SealThenUnseal | crates/creds/src/tpm2.rs:868-968 | for every mask, only the secret ever comes back, only where a sealing opens, and there always when all commands are answered; with more than eight PCRs from the device nothing, or a hash collision |
| VarlinkFraming.HandleConnection | crates/ask-password/src/main.rs:570-590 | however the stream is cut into reads, the messages served are those of the whole stream in order, up to the first reply that cannot be written |
| VarlinkFraming.ServeBuffer | crates/ask-password/src/main.rs:579-588 | drains the complete messages and leaves the bytes after the last NUL |
| VarlinkFraming.MessagesAppend | crates/ask-password/src/main.rs:570-590 | more input only adds messages, starting from what was left |
| VarlinkFraming.FramesOfMessages | crates/ask-password/src/main.rs:570-590 | messages and rest put together again are the stream |
| VarlinkFraming.MessagesOfFrames | crates/ask-password/src/main.rs:570-590 | framed messages come out as they went in |

## Left out

- TimeSpanParser.ReadsBack: does not cover numbers with a fraction or products of 2^53 and more, because the floating point is a parameter known to be exact only on smaller integers.
- TimeSpanParser.ParseTimeUnit: lowers ASCII letters only; case folding of other letters, after which the original can slice inside a character, is not modelled.
- Tpm2Seal.SealSecret: takes the commands other than TPM2_PCR_Read as operations of an abstract TPM; their request bytes (but for the load's) and key templates are not modelled, nor the hexadecimal text of the kernel's PCR files.
- Tpm2Seal.UnsealSecret: an answer that is lost after the TPM carried out the command leaves its handle live; the contract counts those handles apart. Parts of 65536 bytes and more, which no TPM writes, reach the abstract TPM untruncated.
- DropIns.ScanDirs: takes directories as readable with unique names; the order within one drop-in directory, and of units without files, is that of the listings and not stated.
- BootEntries.StableSortIsMenu: the library sort itself is not modelled, only what its result must be; on versions with digit runs of 64 bits and more the order is cyclic and no result is promised.
- LineDiff.SimpleDiff: gives the hunk as data; header text and splitting files into lines are not modelled.
- VarlinkFraming.HandleConnection: the JSON dispatch of a message and the text of its reply are not modelled.
- Calendar.DaysFromCivil: integers are unbounded; days and years near the 64-bit limits, which no caller passes, could overflow in the original.
- CoreDump.ReadersRecover: the two crates' copies of the parser are one function here, as their texts agree.
- Strings are sequences of Unicode characters; where the original works on UTF-8 bytes of text (splitting and searching) the model works on characters.
- The KeepFree phase of the vacuum in coredump: its freed counter stays 0, so no claim about freeing the oldest until enough is free holds.
- Files, sockets, ioctls, EFI variables, command lines, colours, static tables, calendar expressions and unit conditions.
