# A Dafny model of System-Tools

This project models the parts of System-Tools that have the most state and the most corner cases, and
proves what they guarantee over whole inputs and whole runs:

* **Text-Block** (`OptionType`, `Sequences`, `Bytes`, `TextBlock*`): the streaming editor that marks
  blocks of text by tags or line numbers and extracts, removes, replaces, highlights or extends them.
* **Print-UTF8** (`Utf8`, `Unescape`, `AnsiFilter`, `Layout`, `LayoutWidth`): the decoder of backslash
  escapes, the filter for ANSI sequences, and indented, centered and separator lines.
* **Get-System-Info** (`Interfaces`, `NetworkReport`): the list of interface addresses, its comparator,
  and the report that groups the addresses into shell assignments.
* **Unix-Timestamp** (`Numbers`, `TimeToTimestamp`, `TimestampToTime`): splitting and recombining
  seconds, printing and reading timestamps.
* **build-tool** (`Changelog`, `ChangelogEntries`): the filter for Debian changelogs.

Programs that change variables step by step are classes and methods with the same steps, branches and
limits. Each method is proved against a function of its input; lemmas then state what that function
means without referring to loops, positions or line borders, and lemmas with the bytes, letters and
limits written out state what it computes. Text-Block's file-level variables are the fields of the class
`Editor`, with a ghost record of the calls of `processUnmarked` and `processMarked`; their asserts are
preconditions of the two methods.

How the Text-Block modules build on each other: `TextBlockModel` has the options and what one call
writes, `TextBlockRun` the calls that the lines of a file lead to, `TextBlock` the methods,
`TextBlockTape` the input's bytes with block borders between them. `TextBlockScan` shows for tags-only
marking, and `TextBlockLines` for full tag lines and line selection, that this tape is the one of a much
simpler definition. `TextBlockModes`, `TextBlockCounts`, `TextBlockSelection` (Cat and Enumerate),
`TextBlockOptions` (from the options to the output), `TextBlockBlocks` (what is written for one block) and
`TextBlockReplace` (with `TextBlockClosings` and `TextBlockReplaceLines`) draw the conclusions.

## Where the code differs from what one might expect

* The manual page says that Cat copies the input as it is. With a line selection it drops the selected
  lines: `CatCopiesIff` says when it copies, and `CatDropsOnlyLine` has it write nothing for a file of
  one line.
* With a line selection Enumerate drops the selected lines as well, but writes the number of the first
  of them, with no text behind it (`EnumerateNumbersLines`).
* An end bound that counts to just in front of the first line selects up to the end of the file, because
  it is normalised to 0 (`EndBeforeStart`).
* Replacing twice is not always replacing once. The end tag must not be found too early in the inserted
  text. If the begin tag occurs in the end tag, the end tag of a block opens the next one, and the second
  run must find as many blocks as the first one wrote; it is enough to look at as many blocks as the
  rewritten block has bytes. `ReplaceIdempotentIff` and `RemoveIdempotentIff` are the exact conditions.
  With the begin tag `A` and the end tag `AB`, removing from `AAB` gives `AA`, and removing from that
  gives `A` (`RemoveTwiceDiffers`).
* With full tag lines it is enough that the insertion consists of whole lines without the end tag, but a
  block must not begin in a last line without a newline: the insertion is then written behind that line,
  and the second run writes it again (`FullLinesIdempotentIff`, `FullLinesTwiceDiffers`). With equal tags
  every run inserts once more behind every tag (`EqualTagsIdempotentIff`).
* Replacing by extracted text gives the input back only if there was at most one action, or nothing was
  extracted (`ExtractThenReplace`; `ExtractThenReplaceDiffers` for two tags `A`).
* A tag that has a newline before its end is never found (`InnerNewlineIsNeverFound`).
* `--float` converts a negative remainder to an unsigned number, which C does not define
  (`FloatIsExact`; `HalfSecondIsLost` for half a second before the epoch).
* `unixts2time` reads -0.5 as 0.5: strtoll() gives 0, and the sign is lost (`SignIsKeptIff`, `SignIsLost`).
* An ITP entry that is not the first entry loses the empty line behind its header; the filter counts the
  empty line it has put in front of the entry as part of the entry's frame (`OutputShape`).
* The changelog filter is not always idempotent. str.splitlines() also splits at form feeds and other
  separators. The second run then takes something else for the ITP entry if such a separator stands in
  its footer, tears its only ITP item apart, or hides what looks like a footer and survives
  (`FilterTwiceIff`, `FilterTwiceDiffers`).

## Model

| member | source | states |
|---|---|---|
| TextBlockModel.Normalise | src/Text-Block/text-block.c:664-746 | accepted options have both tags or none, never tags together with a line selection, tags only in modes that honour them, and no negative bound for standard input |
| TextBlockOptions.AcceptedIff | src/Text-Block/text-block.c:664-746 | exactly which options are accepted, and which mode, tags and insertion they mean |
| TextBlockOptions.FromTheEnd | src/Text-Block/text-block.c:741-746 | Extract with the bounds -k and -j writes the k-th to the j-th line from the end; -1 is the last line |
| TextBlockOptions.UpToTheEnd | src/Text-Block/text-block.c:741-746 | with the bounds i and -j it writes the lines from the i-th to the j-th from the end, or nothing if they are not in this order |
| TextBlockOptions.FromTheEndOn | src/Text-Block/text-block.c:741-746 | with the bounds -k and i it writes the lines from the k-th from the end to the i-th, to the end of the file for 0 |
| TextBlockOptions.BeginBeforeStart | src/Text-Block/text-block.c:741-746 | a begin bound in front of the first line selects nothing |
| TextBlockOptions.EndBeforeStart | src/Text-Block/text-block.c:741-746 | an end bound of -(n + 1) for n lines selects up to the end of the file, one further in front selects nothing |
| TextBlockRun.TagFound | src/Text-Block/text-block.c:889-946 | a tag step that leaves Pointer where it is lowers the phase, so the tag loop ends; MarkerTag stays one of the two tags |
| TextBlockRun.TagLoopLegal | src/Text-Block/text-block.c:885-946 | at every head of the tag loop InMarkedBlock is "MarkerTag is not the begin tag", which is false for equal tags |
| TextBlockRun.RunLinesLegal | src/Text-Block/text-block.c:868-1003 | between lines InMarkedBlock is determined by MarkerTag, or by LineNo and the selection, in all configurations, and no assert has failed |
| TextBlockRun.RunIsLegal | src/Text-Block/text-block.c:283-334 | no run violates an assert, and every run ends outside a block |
| TextBlock.Editor.CopyInsertFileIntoOutputFile | src/Text-Block/text-block.c:265-275 | every copy is the complete insert file, and the file is rewound for the next one |
| TextBlock.Editor.ProcessUnmarked | src/Text-Block/text-block.c:279-326 | writes what the mode writes for unmarked text, begins a block and counts an action if asked to |
| TextBlock.Editor.ProcessMarked | src/Text-Block/text-block.c:330-373 | writes what the mode writes for marked text and ends the block if asked to |
| TextBlock.Editor.HandleTag | src/Text-Block/text-block.c:888-946 | one found tag: calls made, Pointer, MarkerTag and InMarkedBlock afterwards |
| TextBlock.Editor.HandleTags | src/Text-Block/text-block.c:882-953 | the tag loop of a line terminates with the calls of TagLoop; only the first tag counts with full tag lines |
| TextBlock.Editor.HandleLineRest | src/Text-Block/text-block.c:955-980 | the rest of a line, with the postponed begin or end of a block |
| TextBlock.Editor.HandleUntaggedLine | src/Text-Block/text-block.c:984-998 | a line of a run without tags: selected or not, first and last line of the selection |
| TextBlock.Editor.ProcessFile | src/Text-Block/text-block.c:861-1014 | the whole run: calls, output, actions and lines counted are the ones of Run, and no block stays open |
| TextBlockTape.RunConservesText | src/Text-Block/text-block.c:881-998 | the pieces handed to the two process functions are the input, in order, in every configuration |
| TextBlockTape.RunTapeIsWellFormed | src/Text-Block/text-block.c:881-1014 | blocks do not nest, marked bytes are exactly those between begin and end, and there is one begin per action |
| TextBlockModes.RunOutputIsPlayed | src/Text-Block/text-block.c:287-370 | in every mode that does not show how the text was cut, each byte of the tape is kept or dropped and each border replaced by nothing, the insertion or a label; the tape is the same for all modes |
| TextBlockModes.ExtractRemovePartition | src/Text-Block/text-block.c:289-339 | Extract and Remove split the input: every byte goes, in order, to exactly one of the two outputs |
| TextBlockModes.AddingNothingIsIdentity | src/Text-Block/text-block.c:294-370 | insert modes with an empty insert file and Highlight with empty labels copy the input |
| TextBlockModes.ReplaceByNothingIsRemove | src/Text-Block/text-block.c:289-345 | Replace with an empty insert file writes what Remove writes |
| TextBlockModes.CatIsRemove | src/Text-Block/text-block.c:288-368 | Cat writes what Remove writes |
| TextBlockModes.ExtractThenReplace | src/Text-Block/text-block.c:338-354 | replacing by what Extract wrote for the same input reproduces it if and only if there was at most one action or nothing was extracted; all tag configurations, line selections and open blocks |
| TextBlockCounts.CopiesMatchActions | src/Text-Block/text-block.c:293-372 | at any point of a run: copies of the insert file and block labels number the actions, or those whose block has ended |
| TextBlockCounts.RunCopiesMatchActions | src/Text-Block/text-block.c:293-1014 | over a run copies and labels number the actions; Highlight's block labels take turns and every text is in the pair of labels of its side |
| TextBlockCounts.ErasedOutputIsInput | src/Text-Block/text-block.c:294-370 | Highlight, InsertFront and InsertBack write the input once labels and copies are erased, whatever the labels |
| TextBlockLines.FullTagLinesRunIsFold | src/Text-Block/text-block.c:891-971 | full tag lines: the run is a fold that only asks whether a line contains the tag sought; every line is wholly marked or unmarked |
| TextBlockLines.SelectionRunIsRange | src/Text-Block/text-block.c:984-993 | line selection: exactly the lines of the normalised range are marked, as one block; at most one action, none if the range is empty |
| TextBlockSelection.CatDropsSelection | src/Text-Block/text-block.c:287-371 | Cat writes the lines in front of the selection and those behind it, all lines if none is selected |
| TextBlockSelection.CatCopiesIff | src/Text-Block/text-block.c:287-371 | Cat copies the input if and only if the bounds of the selection select none of its lines |
| TextBlockSelection.CatDropsOnlyLine | src/Text-Block/text-block.c:984-993 | accepted options with which Cat writes nothing for a file of one line |
| TextBlockSelection.EnumerateNumbersLines | src/Text-Block/text-block.c:302-307 | Enumerate puts its number in front of every line outside the selection, and for the selected lines writes the number of the first without a text |
| TextBlockSelection.EnumerateWritten | src/Text-Block/text-block.c:302-307 | what Enumerate writes for one more line: labels, number and line, in this order |
| TextBlockScan.RunIsScan | src/Text-Block/text-block.c:868-981 | tags-only marking line by line is one scan of the unsplit text: same bytes marked, same borders, same tag sought at the end of the file; included or excluded, equal or distinct tags |
| TextBlockScan.InnerNewlineIsNeverFound | src/Text-Block/text-block.c:885 | a tag with a newline before its end is found in no line of any text |
| TextBlockBlocks.IncludedBlock | src/Text-Block/text-block.c:889-946 | tags only, included: the block is from the first begin tag to the first end tag behind it, tags and all; what every mode writes for the text in front, the block, and the rest by a run of its own |
| TextBlockBlocks.ExcludedBlock | src/Text-Block/text-block.c:889-946 | tags only, excluded: the block is what lies between the tags, which are copied as unmarked text |
| TextBlockBlocks.EqualTagBlock | src/Text-Block/text-block.c:893-917 | tags only, equal: every tag is a block, or has an empty block behind it |
| TextBlockBlocks.LinesBlock | src/Text-Block/text-block.c:955-980 | full tag lines: the block is from the line with the begin tag to the first line behind it with the end tag, or what lies between them |
| TextBlockReplace.ReplaceIsEdit | src/Text-Block/text-block.c:866-1014 | Replace with distinct excluded tags writes an edit of the whole text, independent of its lines |
| TextBlockReplace.ReplaceTwiceIsOnce | src/Text-Block/text-block.c:866-1014 | a second run of Replace over the output of the first changes nothing, for every text, if the tags are apart and the insertion ends cleanly |
| TextBlockReplace.ReplaceIdempotentIff | src/Text-Block/text-block.c:866-1014 | Replace is idempotent on all texts if and only if: where the begin tag does not occur in the end tag, the end tag first occurs in insertion and end tag where the insertion ends; otherwise, in n rewritten blocks the search finds n end tags, for every n up to the length of such a block |
| TextBlockReplace.RemoveIdempotentIff | src/Text-Block/text-block.c:866-1014 | Remove is idempotent on all texts if and only if the begin tag does not occur in the end tag before its last byte |
| TextBlockReplace.RemoveTwiceDiffers | src/Text-Block/text-block.c:866-1014 | accepted options and a text with which removing twice removes more than removing once |
| TextBlockReplaceLines.ReplaceIsLineEdit | src/Text-Block/text-block.c:861-1014 | Replace with full tag lines and distinct excluded tags keeps the lines up to one with the begin tag and writes the insertion up to one with the end tag |
| TextBlockReplaceLines.FullLinesIdempotentIff | src/Text-Block/text-block.c:861-1014 | with full tag lines Replace is idempotent on all texts that end with a newline if and only if the insertion consists of whole lines without the end tag, and on all texts if and only if also nothing is inserted or the begin tag ends with a newline |
| TextBlockReplaceLines.FullLinesTwiceDiffers | src/Text-Block/text-block.c:861-1014 | accepted options and a text without a newline at its end that grows in the second run |
| TextBlockReplaceLines.EqualTagsIdempotentIff | src/Text-Block/text-block.c:893-917 | with equal excluded tags, in lines or in tags only, Replace is idempotent on all texts if and only if the insertion is empty |
| TextBlockReplace.ExtractThenReplaceDiffers | src/Text-Block/text-block.c:338-354 | accepted options and a text with two blocks that replacing by the extracted text does not give back |
| Bytes.LinesEndAtNewline | src/Text-Block/text-block.c:868 | a line ends behind byte 10; what is left at the end of the file is a line, too |
| Bytes.SearchEndsAtNul | src/Text-Block/text-block.c:885 | a tag is searched for up to byte 0 of a line |
| Utf8.EncodingIsRfc3629 | src/Print-UTF8/print-utf8.c:215-252 | the bytes of a scalar value in its one, two, three or four byte form (RFC 3629, section 3) |
| Utf8.DecodeEncoded | src/Print-UTF8/print-utf8.c:327-337 | decoding the UTF-8 encoding (RFC 3629, section 3) of any scalar values gives them back |
| Utf8.EncodeDecoded | src/Print-UTF8/print-utf8.c:327-337 | only well-formed bytes (RFC 3629, section 4) are decoded, and encoding the result gives the same bytes |
| Unescape.StepShrinks | src/Print-UTF8/print-utf8.c:179-281 | no escape writes more bytes than it has consumed |
| Unescape.UnescapeOne | src/Print-UTF8/print-utf8.c:180-281 | one round of the loop stays inside the buffer, writes what the escape stands for and skips what it consumed |
| Unescape.Unescape | src/Print-UTF8/print-utf8.c:167-287 | every input, also truncated escapes: the buffer holds the decoded bytes and a terminator; fails exactly on invalid digits |
| Unescape.NamedEscape | src/Print-UTF8/print-utf8.c:187-271 | the byte that each escape of a single letter stands for |
| Unescape.UnknownEscape | src/Print-UTF8/print-utf8.c:272-275 | a backslash in front of any other byte stays, with that byte |
| Unescape.HexEscape | src/Print-UTF8/print-utf8.c:196-204 | \x and two digits of either case |
| Unescape.OctalEscape | src/Print-UTF8/print-utf8.c:205-214 | \0 and three octal digits, modulo 256 |
| Unescape.UnicodeEscape | src/Print-UTF8/print-utf8.c:215-252 | \u and four, \U and eight digits of either case |
| Unescape.TruncatedEscape | src/Print-UTF8/print-utf8.c:196-252 | an escape with too few bytes behind it disappears, these bytes stay |
| Unescape.InvalidDigit | src/Print-UTF8/print-utf8.c:137-163 | a byte that is no digit of the base ends the program |
| Unescape.UnescapeInvertsEscape | src/Print-UTF8/print-utf8.c:180-281 | any mixture of bytes that stand for themselves, are escaped by name, as \xHH with digits of either case, or as \0 and octal digits, decodes to the bytes it stands for |
| Unescape.UnescapeInvertsScalars | src/Print-UTF8/print-utf8.c:214-253 | \u and \U of scalar values give their UTF-8 encoding, which decodes to the same values |
| AnsiFilter.RemoveAnsi | src/Print-UTF8/print-utf8.c:293-323 | the filter loop leaves the bytes outside ANSI sequences, or all bytes if it is switched off |
| AnsiFilter.SequenceIsRemoved | src/Print-UTF8/print-utf8.c:306-323 | a sequence is byte 27, bytes that are no ASCII letters, and a letter, 65 to 90 or 97 to 122; it disappears, and the text around it is filtered as if it were not there |
| AnsiFilter.SequenceToTheEnd | src/Print-UTF8/print-utf8.c:306-323 | a sequence that no letter ends removes the rest of the text |
| AnsiFilter.FilterParts | src/Print-UTF8/print-utf8.c:306-323 | texts behind a part that ends outside a sequence are filtered separately |
| AnsiFilter.FilterTwice | src/Print-UTF8/print-utf8.c:306-323 | filtering twice is filtering once |
| AnsiFilter.FilterCommutesWithDecoding | src/Print-UTF8/print-utf8.c:306-332 | filtering the bytes of well-formed UTF-8 leaves well-formed UTF-8 that decodes to the filtered characters |
| Layout.Printer.Indented | src/Print-UTF8/print-utf8.c:469-479 | the text with padding in front or behind; fails exactly if a text that is measured cannot be decoded |
| Layout.Printer.Centered | src/Print-UTF8/print-utf8.c:483-497 | the text between two halves of the additional space, the odd column behind it |
| Layout.Printer.Separator | src/Print-UTF8/print-utf8.c:501-524 | borders and as many copies of the filling as fit; the fill loop ends |
| Layout.Printer.MultiLine | src/Print-UTF8/print-utf8.c:558-592 | every line between its borders, newlines between the lines but not at the end |
| LayoutWidth.LineWidth | src/Print-UTF8/print-utf8.c:558-593 | a whole line, measured as the program measures: max(console, left + text + right) centered, left + max(indentation, text) + right indented |
| LayoutWidth.SeparatorWidth | src/Print-UTF8/print-utf8.c:501-524 | a separator that fits has the largest width the console allows; if the borders do not fit, they are all there is |
| LayoutWidth.LineWritten | src/Print-UTF8/print-utf8.c:558-592 | on which side of the text how many spaces stand, between the borders |
| LayoutWidth.PaddingWritten | src/Print-UTF8/print-utf8.c:469-497 | where the spaces of a single line stand; a centered one has none behind it unless asked for |
| LayoutWidth.FillingWritten | src/Print-UTF8/print-utf8.c:501-524 | the separator is the text given, or one space if that has no width |
| LayoutWidth.WidthOfCharacters | src/Print-UTF8/print-utf8.c:397-407 | the width of a character, and none for a text with one that cannot be printed |
| LayoutWidth.TextWidth | src/Print-UTF8/print-utf8.c:397-407 | a text is as wide as its visible characters, and 0 columns wide if one of them cannot be printed |
| Interfaces.CompareIsTotalPreorder | src/System-Info/get-system-info.c:141-189 | the comparator is a total preorder with consistent signs, as qsort() requires |
| Interfaces.CompareIsOrder | src/System-Info/get-system-info.c:141-189 | the sign of the comparator: by name, then by family, then by the bytes of the address, each in ascending order |
| Interfaces.CountSetBits | src/System-Info/get-system-info.c:193-206 | counts the one bits of all bytes |
| Interfaces.NetmaskBits | src/System-Info/get-system-info.c:1340-1361 | the bits of a prefix's netmask number the prefix length |
| Interfaces.BuildList | src/System-Info/get-system-info.c:1318-1389 | the list is the first 1024 entries of kept addresses in node order, with filter and prefix length |
| Interfaces.IPv4IsListed | src/System-Info/get-system-info.c:1318-1389 | an IPv4 address with the netmask of a prefix has one entry with this prefix length, without a netmask with 32; none for 127.0.0.1 with the filter |
| Interfaces.IPv6IsListed | src/System-Info/get-system-info.c:1318-1389 | likewise for IPv6 with 128; none for ::1 and fe80::/10 with the filter |
| Interfaces.LinkIsListed | src/System-Info/get-system-info.c:1318-1389 | a link-layer address has one entry with prefix length 0, with and without the filter |
| Interfaces.OthersAreNotListed | src/System-Info/get-system-info.c:1318-1389 | nodes without address or of other families have no entry |
| NetworkReport.Reporter.PrintInterfaces | src/System-Info/get-system-info.c:1393-1472 | the printing loop prints the report on the entries of existing interfaces and records every index |
| NetworkReport.Reporter.ShowNetworkInformation | src/System-Info/get-system-info.c:1393-1488 | the whole output: the assignments, then the list of interfaces |
| NetworkReport.EveryAddressOnce | src/System-Info/get-system-info.c:1424-1468 | every kept address is printed exactly once, in order, under the key of its interface and family |
| NetworkReport.EveryKeyOnce | src/System-Info/get-system-info.c:1390-1468 | for sorted entries no key is assigned twice |
| NetworkReport.EntryHasKeys | src/System-Info/get-system-info.c:1403-1457 | every entry has its name, flags and family key in the report |
| NetworkReport.ListIsReportOrder | src/System-Info/get-system-info.c:1474-1488 | the list has the interfaces of the report in the report's order |
| NetworkReport.ReportIsWellFormed | src/System-Info/get-system-info.c:1390-1488 | the whole report on sorted entries: balanced quotes, distinct keys, every address once under its key, name and flags for every interface, every interface listed once in report order |
| NetworkReport.ReportOnNodes | src/System-Info/get-system-info.c:1318-1488 | the same for any sorted permutation of the list that was built from the system's addresses: every address on that list is printed exactly as often as it is there, under its own key |
| NetworkReport.IPv4IsPrinted | src/System-Info/get-system-info.c:1318-1488 | an IPv4 address with the netmask of a prefix is printed with this prefix length under its interface's ipv4 key |
| NetworkReport.IPv6IsPrinted | src/System-Info/get-system-info.c:1318-1488 | likewise for IPv6 |
| NetworkReport.LinkIsPrinted | src/System-Info/get-system-info.c:1318-1488 | a link-layer address is printed under its interface's mac key |
| NetworkReport.ReportStep | src/System-Info/get-system-info.c:1403-1468 | what one more entry adds to the report: name, flags and address, a new key, or one more value |
| NetworkReport.TokensWritten | src/System-Info/get-system-info.c:1403-1472 | the text of an assignment: key and opening quote, values with spaces between them, closing quote |
| TimeToTimestamp.FindSecondsPlaceholder | src/Unix-Timestamp/time2unixts.c:62-83 | finds the first seconds conversion |
| TimeToTimestamp.PlaceholderSplits | src/Unix-Timestamp/time2unixts.c:62-83 | what is in front of the placeholder is made of whole conversions and has no placeholder |
| TimeToTimestamp.PlaceholderIsFound | src/Unix-Timestamp/time2unixts.c:62-83 | behind any such front part the placeholder is found, whatever follows |
| TimeToTimestamp.PlaceholderWritten | src/Unix-Timestamp/time2unixts.c:62-83 | %S is the placeholder; other conversions, %% included, are skipped as a whole |
| TimeToTimestamp.SplitSeconds | src/Unix-Timestamp/time2unixts.c:292-300 | rounding the fraction with carry gives the seconds rounded to the nearest nanosecond |
| TimeToTimestamp.SplitRecovers | src/Unix-Timestamp/time2unixts.c:292-300 | the result is (s, n) if and only if the number is within half a nanosecond of s + n * 10^-9, also just below a whole second |
| TimeToTimestamp.StoreDigits | src/Unix-Timestamp/time2unixts.c:103-123 | for every 128-bit value of either sign at most 43 of the 64 cells are used, for the digits from the last to the first |
| TimeToTimestamp.PrintBigInteger | src/Unix-Timestamp/time2unixts.c:87-124 | prints sign, prefix and digits of every 128-bit value, the smallest included |
| Numbers.DigitsAreRead | src/Unix-Timestamp/time2unixts.c:103-123 | digits read back to the number and have no leading zero |
| TimeToTimestamp.SignedNumeralIsRead | src/Unix-Timestamp/time2unixts.c:87-124 | every printed number reads back to its value, in base 10 and 16, with and without prefix |
| TimeToTimestamp.NumeralWritten | src/Unix-Timestamp/time2unixts.c:87-124 | sign, then 0x, then the digits 0 to 9 and a to f, the last one last |
| TimeToTimestamp.PrintFloat | src/Unix-Timestamp/time2unixts.c:341-360 | the output of --float reads back to exactly unixTS / divideBy; there is none, because C does not define it, exactly for negative timestamps with a fraction |
| TimeToTimestamp.FloatIsExact | src/Unix-Timestamp/time2unixts.c:341-360 | --float is defined if and only if the timestamp is not negative or has no fraction, and then reads back to exactly unixTS / divideBy |
| TimeToTimestamp.HalfSecondIsLost | src/Unix-Timestamp/time2unixts.c:344-345 | half a second before the epoch has no defined --float output |
| TimestampToTime.ParseTimestamp | src/Unix-Timestamp/unixts2time.c:217-270 | unit, number of fraction digits and nanoseconds of a timestamp; they are what the text means unless the sign of -0.5 and the like is lost |
| TimestampToTime.UnitOfNumber | src/Unix-Timestamp/unixts2time.c:231-248 | numbers below 5 * 10^9 are seconds, below 5 * 10^12 milliseconds, below 5 * 10^15 microseconds, all others nanoseconds |
| TimestampToTime.FractionIsCutOff | src/Unix-Timestamp/unixts2time.c:260-266 | the fraction is cut off to whole nanoseconds, not rounded |
| TimestampToTime.UnitsAreRecognised | src/Unix-Timestamp/unixts2time.c:231-248 | a timestamp printed in any of the four units is recognised in it if and only if it is at least 5 * 10^15 and below 5 * 10^18 nanoseconds from the epoch |
| TimestampToTime.SignIsKeptIff | src/Unix-Timestamp/unixts2time.c:249-267 | the timestamp is the one the text means unless a minus sign stands before zero with a fraction |
| TimestampToTime.SignIsLost | src/Unix-Timestamp/unixts2time.c:249-267 | -0.5 is read as 0.5 |
| TimestampToTime.Normalise | src/Unix-Timestamp/unixts2time.c:278-285 | truncated division is corrected to Euclidean division for every signed timestamp |
| TimestampToTime.NormaliseAndRecombine | src/Unix-Timestamp/unixts2time.c:278-285 | normalisation and time2unixts's recombination are inverse in both directions |
| TimestampToTime.ChoosePrecision | src/Unix-Timestamp/unixts2time.c:329-343 | the smallest precision with which no timestamp of the unit and so many fraction digits loses a digit |
| TimestampToTime.PrecisionLosesNothing | src/Unix-Timestamp/unixts2time.c:249-343 | 10^(9 - precision) divides the nanoseconds, for every unit, fraction and sign |
| TimestampToTime.PrintedFractionIsExact | src/Unix-Timestamp/unixts2time.c:278-352 | the fraction digits printed with the chosen precision read back to the nanoseconds |
| TimestampToTime.FloatIsReadBack | src/Unix-Timestamp/unixts2time.c:217-270 | whatever time2unixts --float prints in a unit is read back as the same timestamp in that unit, and the unit is recognised where it can be |
| Changelog.FilterDebianChangelog | ci/build-tool:1023-1087 | the loop returns the kept entries of the lines |
| ChangelogEntries.BeginsEntryIff | ci/build-tool:1025 | an entry begins with a line that begins with an ASCII letter |
| ChangelogEntries.EndsEntryIff | ci/build-tool:1026 | an entry ends with a line that begins with a space and two dashes |
| ChangelogEntries.ItpIff | ci/build-tool:1029 | an ITP item has "Closes:" and behind it "ITP", or "ITP" and behind it "Closes:", in one line |
| ChangelogEntries.PartsAreSplit | ci/build-tool:1061 | str.splitlines() ends a part at any of ten characters, and carriage return and newline are one separator |
| ChangelogEntries.OrdinaryEntriesAreKept | ci/build-tool:1037-1087 | entries without ITP items are all kept, unchanged and in order |
| ChangelogEntries.ItpEntryIsLast | ci/build-tool:1037-1087 | the first entry with an ITP item is the last one of the output, cut; the entries in front of it are kept, nothing behind it matters |
| Changelog.CutIsSurvivors | ci/build-tool:1060-1072 | the lines kept of an ITP entry, as splitlines() cuts it: the first two, the ITP items, the last two |
| Changelog.CutEntryLines | ci/build-tool:1060-1072 | if only newlines separate its lines, these are header, ITP items, last content line, footer, and the first content line only in the very first entry |
| Changelog.OutputShape | ci/build-tool:1037-1087 | complete entries in order and unchanged up to the first ITP entry, of that one the lines that survive, and nothing of what follows |
| Changelog.FilterTwiceIff | ci/build-tool:1037-1087 | for every text: the filter returns its own output, read in again line by line, unchanged if and only if there is no ITP entry or the first one, in the pieces splitlines() makes of it, ends with a footer, has an ITP item in one piece and no surviving piece in between that looks like a footer |
| Changelog.FilterTwice | ci/build-tool:1037-1087 | that is so if only newlines separate the lines of the ITP entry |
| Changelog.FilterTwiceDiffers | ci/build-tool:1061 | a changelog with a form feed that the second run shortens |

## Left out

- RunIsScan: texts with NUL bytes are excluded, because strstr() stops there and a scan of the whole text would stop for good; the other results on runs do not need this.
- SplitSeconds: seconds are a real number, so rounding inside the arithmetic on doubles is not modelled.
- ParseTimestamp: the fraction is an exact decimal without exponent, the integer part is what strtoll() has read, and rejected input is not modelled; neither is the overflow of unixTS *= divideBy in builds without _BitInt(128).
- LineWidth: assumes that the parts end outside ANSI sequences, can be decoded and can be printed, and that a space is one column wide.
- Unescape: wctomb() is a parameter that writes at most six bytes; the round trips use RFC 3629 for it.
- ReportIsWellFormed: sorting is qsort()'s promise on a total preorder, if_nametoindex() is a fixed function, and no two existing interfaces share an index.
- MultiLine: reading the lines from standard input in chunks of a fixed buffer, and the limit of 1024 lines.
- FullLinesIdempotentIff: replacing twice with included tags is not looked at; the first run takes the tags away.
- Actions and LineNo are unbounded; overflow of an int or long long counter is not modelled.
- Text-Block's exit status from the limits on actions, its warnings, and all of its file handling.
- Failing writes and failing allocations in all programs.
- Option parsing, usage and version texts, translations and locales in all programs.
- Printing of addresses and flags in the interface report; they are single tokens. The comparator's branch for other families and other systems' link-layer addresses.
- strftime(), strptime(), gmtime() and timegm(), and the text in front of and behind the seconds.
- The `icu_wcswidth` replacement of wcswidth(), which looks at pairs of characters.
- The other reports of Get-System-Info, Random-Sleep, the X.509 scripts and the rest of build-tool.

Nothing was executed.
