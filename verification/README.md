# Models of shucked

Dafny models of the parts of this repository whose promises range over unbounded inputs, with proofs
of those promises. The groups below share only `Utf8` (text as UTF-8 bytes, RFC 3629, sections 3
and 4), `OptionalValues` and `Arithmetic`. `dafny verify dfyconfig.toml` checks everything.

- **Raw shell text** (`QuoteState`, `QuoteScan`, `QuoteMeaning`, `ShellGrammar`, `RawShell`, `ShellOpeners`,
  `ScannerAgreement`): quote tracking, the scanners of the parser front end, and a grammar of balanced shell
  text that the recursive scanner is proved to accept exactly. All scanners read UTF-8 bytes and are proved
  to slice only on character boundaries.
- **Literal command text** (`CommandLiteral`, `InertText`, `CommandWords`, `WordMeaning`): the double-quote escape
  writer, the decoder of static command names (sections 2.2.1 and 2.2.3 of POSIX.1-2017, Shell Command
  Language), and trimming.
- **Command normalization** (`CommandResolution`, `CommandScan`, `CommandOptions`, `CommandAliases`): wrappers such
  as `sudo`, `exec -a x`, `command -p` and `find -exec` are peeled off a word list.
- **PATH evidence** (`PathEvidence`, `CommandFiles`): a bounded index of PATH directories, over an abstract
  filesystem, compared with the exact probe.
- **Caching** (`CacheKey`, `CacheKeyMaps`, `FormatSettings`, `SettingsBytes`, `PackageCache`, `CacheRuns`): the
  key encoding, one session of the persistent cache, and runs of any number of interleaved sessions over one
  cache file.
- **Positions and ranges** (`Positions`, `SourceSlices`, `GitHubExpression`): advancing and rebasing
  positions, slicing on character boundaries, and moving an expression tree in place.
- **Licence expressions** (`Spdx`, `SpdxText`): the recursive-descent recognizer with its shared cursor and
  depth limit (a subset of Annex D of the SPDX 2.3 specification).
- **Log compactor** (`LogCompactor`, `LogCompactorProperties`), **package closure** (`PackageClosure`) and
  **nested allocation frames** (`MemoryFrames`, `FrameMeaning`, `MergedFrames`).

`Utf8Encoding` proves that reading a character undoes the encoding table of the standard.

Loops and objects of the source are loops and objects here. A scanner, parser or machine is proved equal to
a function of its input or old state, and what the source promises is proved about that function. Where code
and function share a table, such as which bytes open a construct or which options take a value, the table is
pinned down on literal bytes and fields in `ShellOpeners`, `QuoteMeaning`, `InertText`, `WordMeaning`,
`CommandOptions`, `CommandFiles`, `SettingsBytes` and `FrameMeaning`.

Where the code and its own documentation differ, the models follow the code:

- `crates/shucked-ast/src/span.rs:11` calls the column a byte offset within the line; it counts characters.
  `Positions.ColumnIsByteOffsetIffAscii` says exactly when the two are the same.
- `crates/shucked-cache/src/lib.rs:418` says that only untouched entries are pruned by age; the code prunes
  by the old time stamp before it stamps touched entries. `CacheRuns.SessionOutcome` says exactly which
  entries survive, and `CacheRuns.TouchedEntryIsPruned` gives an entry that does not.

Claims that hold only under a condition are stated with that condition in both directions: the agreement of
index and probe (ASCII case folding, and no failure of asking for the name in the directories passed over),
cache entries being the latest (no overwriting), merged and summed peaks (carried bytes), rebasing (one-based
middle), and normalizing again (no aliased command). In particular a complete index answers Missing where the
probe answers Unknown for a name that is too long for the volume (`crates/shucked-command/src/host.rs:108`
admits 4096 bytes) and in a directory that may be listed and not searched.

## Model

| member | source | states |
|---|---|---|
| `ShellGrammar.ConstructScanIffDerived` | crates/shucked-ast/src/raw_shell.rs:443-506 | the scan with its depth counter and quote flags ends a construct at `j` if and only if the text up to `j` derives from the grammar of quoted strings, escapes, nested constructs and matched delimiters |
| `ShellGrammar.WordScanIffDerived` | crates/shucked-ast/src/raw_shell.rs:388-439 | a word ends at `j` if and only if the text up to `j` is a run of the same items, followed by white space or the bound |
| `ShellGrammar.ConstructEndIsUnique` | crates/shucked-ast/src/raw_shell.rs:443-506 | any two derivations from one start end at the same place, which lies within the bound |
| `RawShell.RawShellScanner.SkipBalancedShellConstruct` | crates/shucked-ast/src/raw_shell.rs:443-506 | for every text and bound on character boundaries: the end of a derivation, or nothing when there is none; the end is a character boundary within the bound |
| `RawShell.RawShellScanner.ShellWordEnd` | crates/shucked-ast/src/raw_shell.rs:388-439 | the end of a derived word, or nothing when there is none; a boundary within the bound |
| `RawShell.RawShellScanner.SkipNestedConstruct` | crates/shucked-ast/src/raw_shell.rs:422-433 | the arms for `$(`, `${`, `<(`, `>(` and backticks, which words and constructs share: the byte after the nested construct |
| `RawShell.RawShellScanner.SkipLegacyBacktickConstruct` | crates/shucked-ast/src/raw_shell.rs:510-545 | the same for a backtick construct |
| `RawShell.RawShellScanner.SkipLegacyBacktickSubstitutionBody` | crates/shucked-ast/src/raw_shell.rs:552-565 | the byte after the first unescaped backtick, or nothing if there is none |
| `RawShell.RawShellScanner.SkipSingleQuotedBody` | crates/shucked-ast/src/raw_shell.rs:197-208 | the body is quoted up to the result, where the quote has just closed or the bound is reached; a boundary within the bound; a start at or past the bound is returned unchanged |
| `RawShell.RawShellScanner.SkipDoubleQuotedBody` | crates/shucked-ast/src/raw_shell.rs:212-227 | the same for double quotes; the result passes the bound only by one escaped character after a backslash at the bound |
| `RawShell.RawShellScanner.SkipEscapedOrQuotedAt` | crates/shucked-ast/src/raw_shell.rs:231-245 | an escape or a quoted body is skipped exactly when one starts there, and no character inside it is read unquoted |
| `RawShell.RawShellScanner.FindComment` | crates/shucked-ast/src/raw_shell.rs:249-265 | the first comment marker outside quotes and escapes in the range, or nothing if there is none |
| `RawShell.RawShellScanner.MatchingCommandSubstitutionClose` | crates/shucked-ast/src/raw_shell.rs:275-303 | the first active `)` that takes the running depth below zero, or nothing if there is none |
| `RawShell.RawShellScanner.NextCommandSubstitution` | crates/shucked-ast/src/raw_shell.rs:307-331 | the leftmost non-arithmetic `$(` outside single quotes that has such a close, paired with that close |
| `RawShell.AdvanceShellChar` | crates/shucked-ast/src/raw_shell.rs:578-583 | the next index is the next character boundary, or one past the end |
| `RawShell.AdvanceEscapedShellChar` | crates/shucked-ast/src/raw_shell.rs:587-594 | the next index is two characters further, or behind the last character, or one past the end |
| `ShellOpeners.OpenersNest` | crates/shucked-ast/src/raw_shell.rs:422-433 | on literal bytes: in a word or delimited construct, outside single quotes, `$(`, `${`, a backtick and, outside double quotes, `<(` and `>(` make the scan go on exactly where the derivation of the parenthesis, brace or backtick body ends, and fail if it has no end |
| `ShellOpeners.OtherBytesDoNotNest` | crates/shucked-ast/src/raw_shell.rs:395-436 | on literal bytes: no other byte nests; what each of them does is an escape, a quote, a delimiter that changes the depth, the blank that ends a word, or one character |
| `ShellOpeners.ScanEndsAtBound` | crates/shucked-ast/src/raw_shell.rs:438-439 | at the bound a word ends if no quote is open, and a construct has no end |
| `ShellOpeners.WidthsAreCharacters` | crates/shucked-ast/src/raw_shell.rs:578-594 | an escape takes the backslash and one whole character, any other step one whole character, cut at the bound |
| `ShellOpeners.ParameterKeepsBlank` | crates/shucked-ast/src/raw_shell.rs:425-426 | the blank of `${x:-a b}` does not end the word |
| `QuoteScan.DepthStaysNonNegative` | crates/shucked-ast/src/raw_shell.rs:275-303 | until the close is reached the depth counter never would be negative |
| `QuoteScan.ReadersAgree` | crates/shucked-ast/src/raw_shell.rs:43-132 | both character readers of the quote state move through the same states; they report differently exactly for ordinary characters in double quotes |
| `QuoteScan.QuoteAfterChar` | crates/shucked-ast/src/raw_shell.rs:43-90 | the bytes inside a character never change the quote state, which is why quoted text may be read byte by byte |
| `ScannerAgreement.MatcherAgreesWithScanner` | crates/shucked-ast/src/raw_shell.rs:275-506 | on text without an unescaped backtick or `${` outside single quotes and without an unescaped `$(` inside double quotes, the counter-based matcher closes at `j` exactly when the recursive scanner ends at `j + 1` |
| `ScannerAgreement.ReadersDisagreeOnQuotedCommand` | crates/shucked-ast/src/raw_shell.rs:275-506 | a concrete body with a command inside double quotes on which the two disagree |
| `QuoteStates.ParityIsCarriedEscape` | crates/shucked-ast/src/raw_shell.rs:604-614 | the backward backslash parity equals the escape bit a forward scan carries |
| `QuoteStates.ByteIsBackslashEscaped` | crates/shucked-ast/src/raw_shell.rs:604-614 | the parity loop computes the carried escape bit, for any index, clamped to the text |
| `QuoteStates.QuoteState.ConsumeRawChar` | crates/shucked-ast/src/raw_shell.rs:43-90 | the new state and the answer, as the quote automaton gives them |
| `QuoteStates.QuoteState.ConsumeShellWordChar` | crates/shucked-ast/src/raw_shell.rs:94-132 | the new state and the answer, as the word automaton gives them |
| `QuoteStates.QuoteState.ScanLine` | crates/shucked-ast/src/raw_shell.rs:135-169 | the quote left open at the end of a line, or where its comment starts, with escapes decided by parity instead of the carried bit |
| `QuoteMeaning.SingleQuoteRuns` | crates/shucked-ast/src/raw_shell.rs:54-60 | a single quote stays open exactly up to the next apostrophe, whatever comes before it |
| `QuoteMeaning.DelimiterRuns` | crates/shucked-ast/src/raw_shell.rs:61-75 | a double quote, and a backtick where those count, stays open exactly up to the next one behind an even number of backslashes |
| `QuoteMeaning.QuoteOpens` | crates/shucked-ast/src/raw_shell.rs:71-90 | outside quotes the first quote character behind an even number of backslashes opens its quote, and nothing else does |
| `QuoteMeaning.SyntaxIsReported` | crates/shucked-ast/src/raw_shell.rs:43-90 | exactly the characters outside quotes and escapes that are no quote or escape syntax go unreported |
| `QuoteMeaning.CommentPlaces` | crates/shucked-ast/src/raw_shell.rs:569-575 | a comment may start at the start of the text and behind white space, `;`, `&` or `\|`, all spelled out as bytes |
| `QuoteMeaning.BlankIsSpelled` | crates/shucked-ast/src/raw_shell.rs:569-575 | the UTF-8 encodings of all white-space characters |
| `QuoteMeaning.LineReaderAgreesIff` | crates/shucked-ast/src/raw_shell.rs:135-169 | the reader of one line sees the quotes that the raw quote automaton sees, at every place, if and only if no apostrophe is escaped outside quotes |
| `QuoteMeaning.ScanLineReadsQuotes` | crates/shucked-ast/src/raw_shell.rs:135-169 | without such an apostrophe, scanning a line leaves the quote that the raw quote automaton has where the comment starts or the line ends |
| `CommandLiteral.WriteDoubleQuotedLiteral` | crates/shucked-ast/src/ast.rs:3031-3056 | the character loop writes the text with every `"`, backslash, `$` and backtick escaped |
| `CommandLiteral.AppendDecodedLiteral` | crates/shucked-ast/src/ast.rs:2071-2117 | the copy-window loop equals decoding one character at a time, in both contexts |
| `CommandLiteral.AppendStaticCommandLiteral` | crates/shucked-ast/src/ast.rs:2062-2069 | with or without the shortcut for text that has no escape, the decoded text is appended |
| `CommandLiteral.DecodeUndoesEscape` | crates/shucked-ast/src/ast.rs:2071-2113 | decoding in double quotes gives back every text that was written |
| `CommandLiteral.EscapedStaysQuoted` | crates/shucked-ast/src/ast.rs:3031-3056 | the written text never closes the quote it stands in and leaves no escape open |
| `CommandLiteral.ScanStopsAfterWrittenText` | crates/shucked-ast/src/raw_shell.rs:212-227 | scanning the written text, a quote and any rest stops exactly after that quote |
| `CommandLiteral.TrimUnescapedTrailingWhitespace` | crates/shucked-ast/src/ast.rs:3529-3552 | the loop ends where trimming ends |
| `CommandLiteral.TrimmingIsMaximal` | crates/shucked-ast/src/ast.rs:3529-3552 | exactly the longest run of unescaped white space at the end is removed, in both directions |
| `CommandLiteral.TrimmingIsIdempotent` | crates/shucked-ast/src/ast.rs:3529-3552 | the trimmed text is valid text, and trimming it again changes nothing |
| `CommandLiteral.DecodeKeepsTrimmedTail` | crates/shucked-ast/src/ast.rs:2071-2113 | decoding a text is decoding its trimmed form followed by what was trimmed |
| `InertText.WrittenTextIsInert` | crates/shucked-ast/src/ast.rs:3031-3056 | on literal bytes: in a written text every `"`, `$`, backtick and backslash of the original is escaped, nothing else is, and no escape is left open |
| `InertText.WrittenTextIsOneItem` | crates/shucked-ast/src/ast.rs:3031-3056 | a quote, the written text and a quote derive in the shell grammar as one double-quoted item of plain and escaped characters only |
| `InertText.BackslashIsDropped` | crates/shucked-ast/src/ast.rs:2071-2113 | in double quotes a backslash is dropped exactly before `$`, a backtick, `"`, a backslash and a newline, and the newline with it; outside quotes before everything |
| `InertText.PlainByteIsKept` | crates/shucked-ast/src/ast.rs:2071-2113 | any other character stands for itself, and so does a backslash at the end |
| `CommandWords.ShortcutAgrees` | crates/shucked-ast/src/ast.rs:1945-2050 | the entry point with its one-part shortcut gives what collecting all parts gives |
| `CommandWords.CollectParts` | crates/shucked-ast/src/ast.rs:1966-1987 | the buffer loop gives the texts of all parts, and fails exactly when one expands at run time |
| `CommandWords.WordTextAndName` | crates/shucked-ast/src/ast.rs:1896-1907 | a word has a static text if and only if it has a static command name; without backslashes they are equal |
| `WordMeaning.WordsJoinTheirParts` | crates/shucked-ast/src/ast.rs:1945-2050 | text and name of a word are those of its parts in order, and missing if one is missing |
| `WordMeaning.PlainPartIsRead` | crates/shucked-ast/src/ast.rs:1945-2050 | a literal is decoded outside quotes, a single-quoted part is kept, an expansion has neither text nor name |
| `WordMeaning.QuotedPartIsRead` | crates/shucked-ast/src/ast.rs:1945-2050 | literals inside double quotes are decoded by the rules of double quotes |
| `WordMeaning.WrittenTextIsNamed` | crates/shucked-ast/src/ast.rs:1896-2113 | a written text between double quotes is a word whose static command name is the original text |
| `CommandScan.NormalizeCommandWordsScan` | crates/shucked-ast/src/command_resolution.rs:172-234 | the loop terminates and equals recursive peeling of the word suffix: name, wrappers, spans and body start |
| `CommandResolution.Peel` | crates/shucked-ast/src/command_resolution.rs:172-234 | an effective name exists if and only if a body start exists, and then the span is that word's |
| `CommandResolution.BodyIsInNormalForm` | crates/shucked-ast/src/command_resolution.rs:172-234 | a body that no alias ended has nothing more to peel |
| `CommandResolution.WrappersLieBeforeBody` | crates/shucked-ast/src/command_resolution.rs:172-234 | there are at most as many wrappers as words before the body |
| `CommandAliases.SameNameIffNoAliasCommand` | crates/shucked-ast/src/command_resolution.rs:352-385 | normalizing the body words gives the same name if and only if the last command word does not start `git filter-branch` or `mumps -run` with one of its two entry points |
| `CommandAliases.AliasedIffAliasCommand` | crates/shucked-ast/src/command_resolution.rs:352-385 | an alias ends the peeling if and only if the last command word starts one of those commands |
| `CommandScan.NormalizingAgainFindsNothing` | crates/shucked-ast/src/command_resolution.rs:129-170 | unless an alias ended the peeling, normalizing the body words of a normalized command yields no wrappers, the same name, span and words |
| `CommandAliases.NormalizingAgainUnlessAliasCommand` | crates/shucked-ast/src/command_resolution.rs:129-170 | the same, with the condition on the words: the last command word starts none of those commands |
| `CommandScan.NormalizeCommandWords` | crates/shucked-ast/src/command_resolution.rs:129-138 | the borrowing version is the normal form |
| `CommandScan.NormalizeCommandWordsOwned` | crates/shucked-ast/src/command_resolution.rs:142-155 | the owned version, which drains the caller's vector, is the same normal form |
| `CommandScan.ResolveCommand` | crates/shucked-ast/src/command_resolution.rs:352-409 | resolution at an index of the whole list is resolution of the suffix, shifted |
| `CommandScan.CommandWrapperTargetIndex` | crates/shucked-ast/src/ast.rs:2124-2166 | the option loop of `command` is shift-invariant and equals its definition on the words that follow |
| `CommandResolution.CommandTargetIsWhereOptionsEnd` | crates/shucked-ast/src/ast.rs:2124-2166 | the target of `command` is the first word that is no `-p` option, or the one after `--`, in both directions |
| `CommandScan.BuiltinWrapperTargetIndex` | crates/shucked-ast/src/ast.rs:2168-2191 | the same for `builtin` |
| `CommandScan.ExecWrapperTargetIndex` | crates/shucked-ast/src/ast.rs:2193-2240 | the same for `exec` with clustered options and `-a` |
| `CommandScan.SudoFamilyTargetIndex` | crates/shucked-ast/src/command_resolution.rs:449-487 | the same for `sudo`, `doas` and `run0` |
| `CommandScan.FindExecTargetIndex` | crates/shucked-ast/src/command_resolution.rs:411-447 | the first `-execdir` decides, otherwise the first other exec flag that is looked at; the loop with its fallback finds it |
| `CommandOptions.TargetIsAfterGroups` | crates/shucked-ast/src/command_resolution.rs:449-494 | for `sudo`, `exec` and `command`: the target is exactly the first word after the option groups, or after `--`, if there is one; the groups are given on literal bytes, with the two-byte options and exec clusters that take the next word |
| `CommandOptions.GroupIsRead` | crates/shucked-ast/src/ast.rs:2124-2240 | each parser takes as one option group, of one or two words, exactly what is spelled out in bytes |
| `CommandOptions.SudoGroupIsRead` | crates/shucked-ast/src/command_resolution.rs:465-494 | `-u`, `-g`, `-h`, `-p`, `-C`, `-D`, `-R`, `-T`, `-r` and `-t` take the next word unless their value is attached; `-l`, `-v`, `-V` and long options other than two leave no target; all other short options take one word |
| `CommandOptions.ClusterIsRead` | crates/shucked-ast/src/ast.rs:2212-2236 | `exec` reads letters `c` and `l`, and an `a` takes the rest of the word or the next word as a name |
| `CommandOptions.BuiltinTargetIsNext` | crates/shucked-ast/src/ast.rs:2168-2191 | the target of `builtin` is exactly the next word, or the one after `--` |
| `CommandOptions.FindTargetIsAfterFlag` | crates/shucked-ast/src/command_resolution.rs:411-447 | `find` runs exactly the word after the first `-execdir`, or else after the first of `-exec`, `-ok` and `-okdir` |
| `CommandOptions.NamesAreResolved` | crates/shucked-ast/src/command_resolution.rs:352-409 | which names are wrappers, and of which kind |
| `CommandOptions.SudoValueIsSkipped` | crates/shucked-ast/src/command_resolution.rs:449-487 | behind `sudo -u name` peeling goes on with what `sudo` alone would run |
| `CommandOptions.SudoValueIsNormalizedAway` | crates/shucked-ast/src/command_resolution.rs:129-234 | normalizing `sudo -u name command ...` is normalizing `command ...` below one more wrapper, for every name and word list |
| `CommandAliases.PeelingEndsAt` | crates/shucked-ast/src/command_resolution.rs:172-234 | peeling ends at a word without a static name, at a command that is no wrapper, whose name is the effective one, or at a wrapper without a target, the last one listed |
| `CommandAliases.AliasNamesCommand` | crates/shucked-ast/src/command_resolution.rs:387-409 | an aliased command is known by its alias, and its body starts at the last word of that name |
| `PathEvidence.LookupNeverContradictsProbe` | crates/shucked-command/src/inventory.rs:122-170 | for every filesystem that folds names at most in ASCII case, every PATH and every name the probe accepts: index and probe never give two different definite answers, even where asking for a name fails |
| `PathEvidence.LookupAgreesIffNoStatFails` | crates/shucked-command/src/inventory.rs:122-170 | on those filesystems, what the index says definitely the probe says too, if and only if asking for the name fails in none of the directories that the lookup passes over |
| `PathEvidence.LookupAgreesWithinLimits` | crates/shucked-command/src/inventory.rs:122-170 | the form a caller can establish: names within the limit of the volume, and PATH directories that may be searched |
| `PathEvidence.AgreementIff` | crates/shucked-command/src/inventory.rs:122-170 | the index agrees with the probe everywhere if and only if the volume folds names at most in ASCII case and asking for an unlisted command name never fails |
| `PathEvidence.NoContradictionIffAsciiFolding` | crates/shucked-command/src/inventory.rs:122-170 | two different definite answers are ruled out everywhere if and only if the volume folds names at most in ASCII case |
| `PathEvidence.WiderFoldingContradicts` | crates/shucked-command/src/inventory.rs:122-170 | for every wider folding a filesystem and a capture that deny a command the probe finds |
| `PathEvidence.FailingStatIsDenied` | crates/shucked-command/src/host.rs:240-246 | for every name and directory in which asking for it fails, a capture that answers Missing where the probe answers Unknown |
| `PathEvidence.LongNameIsDenied` | crates/shucked-command/src/host.rs:108-112 | every command name longer than the volume allows is one such name |
| `PathEvidence.NameInListedOnlyDirectoryIsDenied` | crates/shucked-command/src/host.rs:156-167 | every command name is, in a directory that may be listed and not searched |
| `PathEvidence.LongNameExample` | crates/shucked-command/src/host.rs:108-112 | a name of 300 letters where a volume allows 255 |
| `PathEvidence.CompleteIndexIsDefinite` | crates/shucked-command/src/inventory.rs:122-170 | directories without doubt on the way give a definite answer |
| `PathEvidence.EntryAgrees` | crates/shucked-command/src/host.rs:36-73 | what the index of one captured PATH entry says, the probe of its directory says too, or it answers with the error of asking for the name |
| `PathEvidence.ScanDirectory` | crates/shucked-command/src/host.rs:156-211 | scanning indexes exactly the executable entries within the limit, is complete exactly when no entry leaves doubt, and otherwise records the last doubt, the limit or the error of listing |
| `PathEvidence.EnvironmentSnapshot.Capture` | crates/shucked-command/src/host.rs:36-73 | every PATH entry is scanned, or recorded with its own failure as over the limit or relative |
| `PathEvidence.EnvironmentSnapshot.Lookup` | crates/shucked-command/src/inventory.rs:122-170 | the loop gives the evidence of the index, with its early answers in order, under the name as written or in lower case |
| `PathEvidence.EnvironmentSnapshot.ExactLookup` | crates/shucked-command/src/host.rs:92-140 | the loop gives the evidence of the probe |
| `PathEvidence.EnvironmentSnapshot.RefreshExact` | crates/shucked-command/src/host.rs:76-90 | the recorded answers are those of the probe for the first 4096 names, and nothing else changes |
| `PathEvidence.RefreshedNamesAnswerAsProbe` | crates/shucked-command/src/host.rs:76-90 | refreshed names answer exactly as the probe does, other names as before |
| `PathEvidence.RecordedAnswersAreExact` | crates/shucked-command/src/host.rs:76-90 | of names refreshed more than once, too, the recorded answer is the probe's |
| `CommandFiles.EvidenceOfStat` | crates/shucked-command/src/host.rs:240-274 | on the fields of the metadata: Present exactly for a regular file with an execute bit and granted access, with its own path, size and time; Unknown exactly where asking failed; Missing otherwise |
| `CommandFiles.ProbeFindsFirstCommandFile` | crates/shucked-command/src/host.rs:92-140 | Missing exactly when every PATH directory is within the limit of 256, can be placed and holds no such file; Present exactly when the first other one holds a command file, with that file's path, size and time; Unknown exactly when that one leaves doubt |
| `CommandFiles.ExplicitPathIsInspected` | crates/shucked-command/src/host.rs:113-121 | the same for a path: the file where it points decides, and a relative path needs a launch directory |
| `CommandFiles.PathIsAbsolute` | crates/shucked-command/src/host.rs:142-154 | an absolute path stands for itself, a relative one is joined to a known absolute launch directory |
| `CommandFiles.ProbeDeclines` | crates/shucked-command/src/host.rs:97-124 | anything but a live target with a known PATH and a name that fits is Unknown |
| `CommandFiles.IndexHoldsCommandFiles` | crates/shucked-command/src/host.rs:156-211 | a scan indexes exactly the names of command files among the first 40000 readable text entries, with path, size and time; it is complete exactly when listing ended and nothing was unreadable or doubtful |
| `CommandFiles.LookupFindsFirstIndexed` | crates/shucked-command/src/inventory.rs:144-170 | the lookup answers Missing exactly when every index is complete without the name in any ASCII case, and Present exactly when the first other one has the name itself |
| `CommandFiles.LookupDeclines` | crates/shucked-command/src/inventory.rs:122-143 | stale evidence answers nothing, recorded answers come first, and paths, Windows and an unknown PATH are Unknown |
| `CommandFiles.CaseVariantsDifferInLetters` | crates/shucked-command/src/inventory.rs:150-158 | names that differ in the case of ASCII letters only |
| `CacheKey.EncodingIsUniquelyDecodable` | crates/shucked-cache/src/lib.rs:129-234 | equal streams with any tails come from equal values and equal tails, for every shape |
| `CacheKey.DecodeReadsEncoded` | crates/shucked-cache/src/lib.rs:129-234 | a decoder reads back every written value and stops where it ended |
| `CacheKey.LittleEndianRoundTrip` | crates/shucked-cache/src/lib.rs:67-90 | fixed-width integers are read back from their bytes |
| `CacheKey.LaterBytesWeighMore` | crates/shucked-cache/src/lib.rs:67-90 | every byte weighs 256 times as much as the one before it |
| `CacheKey.CacheKeyHasher.WriteValue` | crates/shucked-cache/src/lib.rs:129-234 | every value appends its encoding to the stream: tag or length first, then the parts in order |
| `CacheKey.CacheKeyHasher.WriteBytes` | crates/shucked-cache/src/lib.rs:97-100 | bytes are preceded by their length |
| `CacheKeyMaps.EqualStreamsIffEqualMaps` | crates/shucked-cache/src/lib.rs:222-234 | two ordered maps of one type write one stream, with any tails, if and only if maps and tails are equal |
| `CacheKeyMaps.ListingIsUnique` | crates/shucked-cache/src/lib.rs:222-234 | the entries of a map are written in one order only |
| `CacheKeyMaps.WriteMap` | crates/shucked-cache/src/lib.rs:222-234 | the loop writes the length, then keys and values in turn |
| `FormatSettings.EqualStreamsMeanEqualSettings` | crates/shucked-cli/src/format_settings.rs:29-53 | two resolved settings write one stream only if all options, patterns and per-file shells are equal |
| `FormatSettings.WriteCacheKey` | crates/shucked-cli/src/format_settings.rs:29-46 | the calls to the hasher append exactly the stream of the settings |
| `SettingsBytes.SettingsAreWritten` | crates/shucked-cli/src/format_settings.rs:29-46 | the stream byte by byte: length and text of the tag, dialect, indentation style and width, eight flags in order, then both lists |
| `FormatSettings.EffectiveShellsAreInjective` | crates/shucked-cli/src/format_settings.rs:219-229 | the shell names in the key tell the configured shells apart |
| `PackageCache.PackageCache.Open` | crates/shucked-cache/src/lib.rs:356-391 | missing, undecodable and root-mismatched files open as empty caches |
| `PackageCache.PackageCache.Get` | crates/shucked-cache/src/lib.rs:400-408 | a hit needs an equal key, and marks the path as seen |
| `PackageCache.PackageCache.Insert` | crates/shucked-cache/src/lib.rs:411-414 | the change is recorded and the path is seen; loaded files stay |
| `PackageCache.PackageCache.Save` | crates/shucked-cache/src/lib.rs:454-493 | pruning, re-stamping and flushing leave exactly the saved files, and nothing happens without work |
| `PackageCache.PackageCache.Persist` | crates/shucked-cache/src/lib.rs:419-439 | the file is replaced by the saved files, or left alone without work |
| `CacheRuns.FlushLoopIsIdle` | crates/shucked-cache/src/lib.rs:481-490 | after any run the changed paths of a session are among its seen paths, so the last loop has nothing to write |
| `CacheRuns.SessionRemembers` | crates/shucked-cache/src/lib.rs:400-414 | over any calls of a session: changes are the last insertions, and seen paths are exactly the hit and inserted ones |
| `CacheRuns.SessionOutcome` | crates/shucked-cache/src/lib.rs:356-493 | what a whole session does to each entry of the file: insertions win; any other entry survives exactly when its old time stamp is at most 2592000000 milliseconds old, and is stamped exactly when hit |
| `CacheRuns.TouchedEntryIsPruned` | crates/shucked-cache/src/lib.rs:416-473 | a hit entry that is too old is pruned all the same |
| `CacheRuns.EveryHitWasPersisted` | crates/shucked-cache/src/lib.rs:356-493 | over every interleaving of sessions, lost files and failed writes: a hit was inserted for that path, key and root by a session persisted before this one was opened |
| `CacheRuns.EveryHitIsLatest` | crates/shucked-cache/src/lib.rs:356-493 | over every run in which no session overwrites newer entries, a hit is the latest insertion persisted before the session was opened |
| `CacheRuns.PersistLeavesLatestIffNotOverwriting` | crates/shucked-cache/src/lib.rs:419-493 | a persist leaves only latest entries if and only if no retained entry it did not insert was replaced since it was opened |
| `CacheRuns.SerialRunIsCareful` | crates/shucked-cache/src/lib.rs:419-493 | over any run, sessions that do not overlap a write of another session never overwrite |
| `CacheRuns.OverlappingSessionsCanServeStale` | crates/shucked-cache/src/lib.rs:356-493 | a concrete run of overlapping sessions after which a replaced entry is served again |
| `Positions.Position.Advance` | crates/shucked-ast/src/span.rs:59-67 | one character moves the position in place |
| `Positions.Position.AdvancedBy` | crates/shucked-ast/src/span.rs:70-96 | the ASCII fast path and the character loop both equal advancing over every character, and the receiver is unchanged |
| `Positions.AdvancingDistributes` | crates/shucked-ast/src/span.rs:70-96 | advancing over a concatenation is advancing over both texts in turn |
| `Positions.FoldedCounts` | crates/shucked-ast/src/span.rs:59-96 | lines count newlines, columns count characters since the last one, offsets count bytes |
| `Positions.OffsetCountsBytes` | crates/shucked-ast/src/span.rs:59-96 | the offset grows by the length of the text in bytes |
| `Positions.ColumnIsByteOffsetIffAscii` | crates/shucked-ast/src/span.rs:11-12 | the column is the documented byte offset within the line if and only if the line is ASCII so far |
| `Positions.TwoByteCharacterTakesOneColumn` | crates/shucked-ast/src/span.rs:11-12 | one two-byte character takes one column and two bytes |
| `Positions.RebasingIsAdvancingTheBase` | crates/shucked-ast/src/span.rs:99-109 | rebasing a position reached from the origin is advancing the base by the same text |
| `Positions.RebasingIsAssociativeIff` | crates/shucked-ast/src/span.rs:99-109 | rebasing is associative for a one-based position in the middle, with the exact condition for all positions |
| `Positions.OneBasedIsKept` | crates/shucked-ast/src/span.rs:59-109 | advancing and rebasing keep positions one-based |
| `SourceSlices.SliceWithByteOffsets` | crates/shucked-ast/src/span.rs:301-307 | the direct slice where it exists, otherwise the clamped one, is one and the same slice |
| `SourceSlices.SliceWithClampedByteOffsets` | crates/shucked-ast/src/span.rs:309-317 | out-of-range offsets give no text; the fallback after clamping is never needed |
| `SourceSlices.FloorCharBoundary` | crates/shucked-ast/src/span.rs:319-325 | the last boundary up to the offset |
| `SourceSlices.CeilCharBoundary` | crates/shucked-ast/src/span.rs:327-333 | the first boundary from the offset on |
| `SourceSlices.SliceIsSmallestCover` | crates/shucked-ast/src/span.rs:301-333 | for a range that fits, the slice is the smallest character-aligned text that covers it, and it is valid text |
| `SourceSlices.SliceMoves` | crates/shucked-ast/src/span.rs:292-333 | a range shifted by the length of a prefix slices the same text out of the longer source, in range or not |
| `GitHubExpression.Node.OffsetBy` | crates/shucked-ast/src/github_actions.rs:104-137 | the ranges of the node, its operators and all descendants are moved in place, each exactly once |
| `GitHubExpression.OffsetAll` | crates/shucked-ast/src/github_actions.rs:112-117 | the loop over arguments moves every one of them |
| `GitHubExpression.Node.Source` | crates/shucked-ast/src/github_actions.rs:99-101 | a node's source is the slice of its range |
| `GitHubExpression.ShiftsAddUp` | crates/shucked-ast/src/github_actions.rs:104-137 | shifting by `a` and then by `b` is shifting by `a + b` |
| `GitHubExpression.ShiftByZero` | crates/shucked-ast/src/github_actions.rs:104-137 | shifting by nothing gives the same tree: nothing but ranges moves |
| `GitHubExpression.ShiftedTreeReadsTheSame` | crates/shucked-ast/src/github_actions.rs:99-137 | after moving past a prefix every node and operator reads the same text as before |
| `Spdx.AcceptsIffPrinted` | tooling/providers/runtime-manifest.py:66-97 | a token list is accepted if and only if it is the yield of a tree of the grammar nested at most 32 deep |
| `Spdx.PrintedExprIsParsed` | tooling/providers/runtime-manifest.py:73-93 | every such tree is read back as itself, wherever it stands, and the cursor stops exactly behind it |
| `Spdx.ParsedExprIsPrinted` | tooling/providers/runtime-manifest.py:73-93 | whatever is read is a tree of the grammar that prints as the tokens between the cursors, within the depth limit |
| `Spdx.PrintingIsInjective` | tooling/providers/runtime-manifest.py:73-93 | no two trees print alike |
| `Spdx.Recognizer.Atom` | tooling/providers/runtime-manifest.py:73-87 | the shared cursor moves over exactly one atom, or the error is raised |
| `Spdx.Recognizer.Expression` | tooling/providers/runtime-manifest.py:88-93 | the loop moves the cursor over exactly one expression, or the error is raised |
| `SpdxText.SpdxDeclared` | tooling/providers/runtime-manifest.py:66-97 | the value itself, or `NOASSERTION` |
| `SpdxText.DeclaredIff` | tooling/providers/runtime-manifest.py:66-97 | a value is declared as it is if and only if its characters are ASCII letters, digits, `.`, `+`, `-`, parentheses and white space and its tokens print a tree nested at most 32 deep |
| `SpdxText.TokensHoldTheirChars` | tooling/providers/runtime-manifest.py:70-71 | the joined tokens are the characters of the value that can be in tokens |
| `SpdxText.FoundAreTokens` | tooling/providers/runtime-manifest.py:70-70 | every token found is a word of the listed characters or a parenthesis |
| `SpdxText.SpacesAreWhitespace` | tooling/providers/runtime-manifest.py:71-71 | the white space of the comparison is that of Unicode and four control characters |
| `SpdxText.PrintedTreeIsDeclared` | tooling/providers/runtime-manifest.py:66-97 | every tree nested at most 32 deep, written with spaces, is declared as it is |
| `LogCompactor.CompactLines` | tooling/src/corpus.rs:118-171 | the state machine, which looks again at the line that ends a section, terminates and equals the recursive split: each section prints its first 8 blocks whole, and exactly the number of the others |
| `LogCompactor.SectionState.FlushBlock` | tooling/src/corpus.rs:89-104 | a block is printed with a blank line behind it or counted as suppressed |
| `LogCompactor.SectionState.FinishSection` | tooling/src/corpus.rs:106-115 | the note says how many blocks were omitted, if any were |
| `LogCompactor.SectionState.TakeLine` | tooling/src/corpus.rs:139-149 | a line of a section joins or starts a block |
| `LogCompactorProperties.HighSignalsAreKept` | tooling/src/corpus.rs:118-171 | every line of high signal is kept, in order, and none is added |
| `LogCompactorProperties.BlocksAreTheSplit` | tooling/src/corpus.rs:139-149 | the blocks are the only split of the section body in which fixture headers stand exactly at block starts |
| `LogCompactorProperties.HighSignalEndsSection` | tooling/src/corpus.rs:128-129 | inside a section exactly the lines of high signal end it |
| `LogCompactorProperties.EightBlocksArePrinted` | tooling/src/corpus.rs:89-115 | at most eight blocks are printed; beyond that the note holds digits that evaluate to the number of all the others, and the name of the section |
| `LogCompactorProperties.DigitsStandForNumber` | tooling/src/corpus.rs:106-115 | the decimal digits evaluate to the number, without a leading zero |
| `LogCompactorProperties.PrintedInTurn` | tooling/src/corpus.rs:89-104 | blocks are printed in order |
| `LogCompactorProperties.LineEndingIsStripped` | tooling/src/corpus.rs:81-87 | exactly the line ending is stripped |
| `LogCompactorProperties.HeadersNameSections` | tooling/src/corpus.rs:26-35 | a line is a header exactly if it is one of the six names and a colon; headers and important lines are printed |
| `PackageClosure.Choose` | tooling/providers/refresh-msys-lock.py:43-50 | the worklist terminates on every dependency graph; it fails if and only if a requested name is unknown; otherwise it chooses exactly the packages reachable from the seeds, and the choice is closed |
| `PackageClosure.ReachableIsLeast` | tooling/providers/refresh-msys-lock.py:43-50 | every closed set holds all reachable packages |
| `PackageClosure.ReadCatalog` | tooling/providers/refresh-msys-lock.py:33-42 | the two loops fill the package and provider dictionaries |
| `PackageClosure.LastDescriptionCounts` | tooling/providers/refresh-msys-lock.py:33-42 | for each name and alias the last description that gives it counts |
| `PackageClosure.NamesStandForPackages` | tooling/providers/refresh-msys-lock.py:33-50 | a name stands for the package of that name if there is one, otherwise for the last package that gives it as an alias, and unknown names for nothing |
| `PackageClosure.BaseName` | tooling/providers/refresh-msys-lock.py:42-50 | the longest prefix without a version relation |
| `MemoryFrames.CounterState.Measured` | crates/shucked-benchmark/examples/linter_memory.rs:135-159 | a measurement fails exactly when it would be the eighth in a nest; otherwise its frame is the count of exactly the events inside it, enclosing frames count them too, and the state is as before |
| `MemoryFrames.CounterState.Perform` | crates/shucked-benchmark/examples/linter_memory.rs:135-159 | the same for every action of a closure, at any nesting |
| `MemoryFrames.CounterState.RecordAlloc` | crates/shucked-benchmark/examples/linter_memory.rs:96-107 | every frame in use counts the allocation, and no other |
| `MemoryFrames.CounterState.RecordDealloc` | crates/shucked-benchmark/examples/linter_memory.rs:109-120 | every frame in use counts the deallocation, and no other |
| `MemoryFrames.CounterState.RecordRealloc` | crates/shucked-benchmark/examples/linter_memory.rs:122-133 | every frame in use counts the reallocation, and no other |
| `MemoryFrames.CountedInTurn` | crates/shucked-benchmark/examples/linter_memory.rs:25-46 | counting two traces in turn is counting their concatenation |
| `FrameMeaning.FrameAddsUp` | crates/shucked-benchmark/examples/linter_memory.rs:25-46 | live bytes are the sum of size, minus size, or new minus old size over the events; the counts are the numbers of allocations and reallocations; the totals are the sums of their sizes |
| `FrameMeaning.FramePeakIsHighest` | crates/shucked-benchmark/examples/linter_memory.rs:25-46 | the peak is the maximum of the live bytes over all prefixes of the events, the empty one included |
| `MergedFrames.MergeCountsBoth` | crates/shucked-benchmark/examples/linter_memory.rs:48-59 | merging equals one measurement of both traces but for the peak, which is never too low, and is exact if and only if carried bytes are not negative or the second peak does not exceed the first |
| `MergedFrames.MergedPeakCanBeTooHigh` | crates/shucked-benchmark/examples/linter_memory.rs:48-59 | for every size two traces whose merged peak is too high by it |
| `MergedFrames.SumMeasured` | crates/shucked-benchmark/examples/linter_memory.rs:261-269 | the loop merges all frames in order and adds the counts |
| `MergedFrames.SumCountsAll` | crates/shucked-benchmark/examples/linter_memory.rs:261-269 | the sum equals one measurement of all traces but for the peak, which is the highest one on top of what merging carries |
| `MergedFrames.SumIsExactIff` | crates/shucked-benchmark/examples/linter_memory.rs:261-269 | that peak is never too low, and exact if and only if the highest one stands on live bytes that are not negative |

## Left out

- Windows: PATHEXT, and capturing with names in lower case; on Windows the index answers Unknown before it is
  read.
- I/O errors when the cache file is opened or written, apart from a write that fails and leaves the file as
  it was (a session that is abandoned).
- SHA-256, bincode, serde and JSON: the hash is an opaque function of the byte stream, and a stored cache
  file is the value that was encoded.
- Integer widths: offsets, columns, counters and byte totals are unbounded, so overflow of `u32`, `u64` and
  `i64` is not modelled; lengths written into cache keys are assumed to fit their 64-bit prefix.
- Path keys: a path is written as lossy text, so two different paths that are not UTF-8 may share a stream;
  the model writes texts only.
- `apply_patch`, per-file shell parsing and the rest of the format settings; the metadata cache and process
  queries; target comparison; everything else in the syntax tree.
- `has_unclosed_substitution_before`.
- The arms for nested constructs that are written out twice in the source are one method,
  `RawShell.RawShellScanner.SkipNestedConstruct`; likewise the section lines of the log compactor
  (`LogCompactor.SectionState.TakeLine`) and the `match` of the tree shift (`GitHubExpression.Node.OffsetParts`).
- The regular expressions of the log compactor are parameters; of those for important lines it is only used
  that each match starts with one of the listed literal texts.
- `Frame` is a value that array slots are assigned, as the copied structure of the source is; panics and
  unwinding after a measurement that nests too deeply leave the state unspecified.
- A name that a directory does not list is no file there: asking for it finds nothing or fails. Which names
  and directories fail is a parameter of the filesystem.
- The environment, file metadata and clocks are parameters; a snapshot is compared with the filesystem it was
  captured from, unchanged.
- Package descriptions are taken as already split into fields; downloading and pinning are left out.
- CacheRuns.EveryHitIsLatest: "latest" is as of the opening of the session, since a session keeps the entries
  it loaded; later writes by other sessions are not seen.
