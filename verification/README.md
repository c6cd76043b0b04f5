# Conventional Commits checker and release-notes compiler in Dafny

This project models the two pure text algorithms of the `conventional-commits`
tools and proves properties of them.

**The commit-message checker.** A commit message is a list of lines. The
checker applies its rules in a fixed order and reports the first one broken:

1. The message is empty, after `#` comment lines are optionally removed.
2. The header is checked: blank, no allowed `CODE: ` prefix, too long, bad
   final character.
3. A body is required but missing.
4. The second line is not blank.
5. A required body is one blank line.
6. The body lines are checked in order: length first, then the
   breaking-change rule.

The breaking-change rule follows items 12, 15 and 16 of the Conventional
Commits 1.0.0 specification. An indicator written in lower case is always an
error. An upper-case `BREAKING CHANGE` or `BREAKING-CHANGE` is an error unless
the line opens with the indicator, then `: `, then a letter or digit.

The tool exists in three revisions. `CommitChecker` is one checker
parameterised by two features: comment removal and the breaking-change rule.
`CheckerRevisions` instantiates it:

- the current class strips comments and checks breaking changes;
- the intermediate class strips comments only;
- the original module-level function does neither, and its twelve codes and
  its limits of 72 are fixed.

Each failure is an error kind that names the rule (`Fail(UnknownCommitCode(h))`),
which is what makes the order of the rules provable.

**The release-notes compiler**, without its network and subprocess calls:

- `LogParsing` covers the following:
  - the stop-point argument, accepted in any letter case;
  - the walk over `git log` records (`hash|§header|§body|§decoration`), which
    stops at the first decoration holding `tag: N.N.N`;
  - the reading of a pull request's commit messages;
  - the classification of each header into parsed `(code, header, body)`,
    unparsed, or ignored (`Merge <hex> into <hex>`).
- `ReleaseNotes` covers the following:
  - filing the notes under the headings of a code-to-heading mapping;
  - counting the breaking changes;
  - rendering the Markdown block between the `START`/`END` HTML-comment
    markers;
  - splicing the block into the pull request's previous description;
  - the whole `compile_release_notes`.

`Patterns` is the small fragment of Python regular expressions the tools use:
literals and `+`-runs of `[A-Za-z\d]`, `\d` or `[0-9a-f]`. It has a greedy
matcher, proved equal to the regex semantics for the patterns used here.
`Strings` holds Python's `find`, `in`, `split`, `join`, `strip` and `str(n)`,
with round-trip lemmas between `split` and `join`.

Python exceptions become values: `Outcome.Fail`, or `Result.Failure` with a
`CompileError`, `LogError` or `CategoriseError`. Three details follow the code:

- An empty previous description and a missing one are both falsy, so both are
  treated as "no previous notes".
- A `git log` output has an empty last record after its final `@@@`. That record
  cannot be unpacked into four fields, so the walk fails on a history with no
  release tag (`LogParsing.UnreleasedHistoryFails`).
- The stop point is validated but never consulted when the log is walked.

A few behaviours of the code are easy to misread. The model keeps them as
the code has them:

- `Breaking-Change: blah` passes: it contains neither indicator.
- A declaration only has to open with the indicator, `: ` and one letter or
  digit (`re.match`, not a full match).
- The single-blank-line body rule runs before the body lines are checked.
- A log record must split into exactly four fields at the field separator
  `|§`; five fields is a failure.
- Under the default mapping, `### Other` sits at `MRG`'s place, because a
  dict keeps first-insertion order.

## Model

| member | source | states |
|---|---|---|
| `CommitChecker.RemoveCommentLinesKeeps` | conventional_commits/check_commit_message.py:112-123 | no kept line is a comment, every kept line comes from the message, and every non-comment line is kept |
| `CommitChecker.RemoveCommentLinesAppend` | conventional_commits/check_commit_message.py:118-123 | comment removal distributes over concatenation, so the surviving lines keep their original order |
| `CommitChecker.RemoveCommentLinesIdempotent` | conventional_commits/check_commit_message.py:85 | removing comment lines from an already stripped message changes nothing |
| `CommitChecker.RemoveCommentLinesAllComments` | conventional_commits/check_commit_message.py:118-123 | a message made only of comment lines is removed entirely |
| `CommitChecker.CommentLineIndexes` | conventional_commits/check_commit_message.py:118 | the comprehension yields, in increasing order, exactly the indexes of the lines starting with `#` |
| `CommitChecker.RemoveCommentLinesByIndex` | conventional_commits/check_commit_message.py:118-123 | popping each collected index, shifted left by the number already popped, leaves exactly the non-comment lines in order |
| `CommitChecker.EffectiveCodesFallback` | conventional_commits/check_commit_message.py:72 | no codes, or an empty set of them, means the thirteen default codes; otherwise exactly the given codes are allowed |
| `CommitChecker.CheckHeader` | conventional_commits/check_commit_message.py:125-156 | passes iff every header rule holds; each failure is reported exactly when its rule is the first broken, in the order blank, unknown code, too long, bad ending |
| `CommitChecker.BreakingChangeError` | conventional_commits/check_commit_message.py:177-196 | no error iff the rule holds; a lower-case indicator is reported first; an upper-case one is reported exactly when the line is not a declaration |
| `CommitChecker.BodyLineError` | conventional_commits/check_commit_message.py:168-175 | a body line passes iff it is within the length limit and obeys the enabled breaking-change rule; a too-long line is reported as too long before anything else |
| `CommitChecker.CheckBodyLines` | conventional_commits/check_commit_message.py:168-175 | the body passes iff every line does; a failure carries the error of the first failing line, all earlier lines being valid |
| `CommitChecker.Check` | conventional_commits/check_commit_message.py:78-110 | the checker passes exactly when the declarative acceptance predicate holds for the message |
| `CommitChecker.CheckLines` | conventional_commits/check_commit_message.py:87-110 | on the lines left after comment removal, the rules pass exactly when the message is non-empty, has a valid header, a body when one is required, a blank separator, and valid body lines |
| `CommitChecker.EmptyMessageRejected` | conventional_commits/check_commit_message.py:85-88 | the error is `EmptyMessage` exactly when nothing is left after the optional comment removal |
| `CommitChecker.CommentOnlyMessageRejected` | conventional_commits/check_commit_message.py:85-88 | with comment removal, a message of comment lines only is rejected as empty |
| `CommitChecker.HeaderErrorsComeFirst` | conventional_commits/check_commit_message.py:90-91 | a broken header is reported before anything about the body, whatever the body holds |
| `CommitChecker.HeaderOnlyMessage` | conventional_commits/check_commit_message.py:94-105 | a one-line message passes iff its header is valid (and not a removed comment) and no body is required; with a body required it fails with `MissingBody` |
| `CommitChecker.SeparatorMustBeBlank` | conventional_commits/check_commit_message.py:107-108 | after a valid header, a non-blank second line is rejected as a missing separator whatever follows |
| `CommitChecker.LongBodyLineRejected` | conventional_commits/check_commit_message.py:168-173 | any body line longer than the limit makes the message fail |
| `CommitChecker.PreStrippedMessageSameOutcome` | conventional_commits/check_commit_message.py:85 | checking a message whose comments were already removed gives the same outcome as checking the original |
| `CommitChecker.CommentFreeMessageSameOutcome` | conventional_commits/check_commit_message.py:85-88 | a message without comment lines gets the same outcome whether comment removal is on or off |
| `CommitChecker.BlankRequiredBodyRejected` | conventional_commits/check_commit_message.py:165-166 | with a body required, header + blank + one blank line is rejected as an empty body |
| `CommitChecker.TrailingBlankLineAccepted` | conventional_commits/check_commit_message.py:165-166 | a valid header followed by one blank line, and then only comments, passes even when a body is required, because the body list is empty |
| `CommitChecker.DeclarationAccepted` | conventional_commits/check_commit_message.py:194-196 | an indicator, `: ` and a description opening with a letter or digit, with no lower-case indicator, obeys the rule |
| `CommitChecker.MixedCaseIndicatorAccepted` | conventional_commits/check_commit_message.py:191-196 | `Breaking-Change: blah` contains neither indicator in either case, so it obeys the rule |
| `CommitChecker.LowercaseIndicatorRejected` | conventional_commits/check_commit_message.py:191-192 | a lower-case indicator anywhere in a line is reported as a lower-case breaking change |
| `CommitChecker.DeclarationPatternMeans` | conventional_commits/check_commit_message.py:195 | `re.match` of one indicator's declaration pattern succeeds iff the line opens with the indicator, `: ` and a letter or digit |
| `CommitChecker.DeclarationMeans` | conventional_commits/check_commit_message.py:191-196 | a line passes the declaration test iff it opens with one of the two indicators, `: ` and a letter or digit; so the rule holds iff there is no lower-case indicator and any upper-case indicator comes with such an opening |
| `CommitChecker.MisplacedIndicatorRejected` | conventional_commits/check_commit_message.py:194-196 | a line with an upper-case indicator and no lower-case one that does not open with an indicator, `: ` and a letter or digit is reported as malformed |
| `CommitChecker.MissingSpaceRejected` | conventional_commits/check_commit_message.py:194-196 | an indicator followed by `:` and no space, with either spelling, is reported as malformed |
| `CommitChecker.MissingColonRejected` | conventional_commits/check_commit_message.py:194-196 | an indicator followed by a space and no colon, with either spelling, is reported as malformed |
| `CommitChecker.EmptyDescriptionRejected` | conventional_commits/check_commit_message.py:194-196 | an indicator followed by `: ` and nothing else is reported as malformed |
| `CommitChecker.IndicatorAfterCodeRejected` | conventional_commits/check_commit_message.py:194-196 | an indicator after other text, such as `BUG: BREAKING CHANGE: x`, is reported as malformed |
| `CommitChecker.RejectedTestLinesNoSpace` | tests/test_checker.py:104-115 | `BREAKING CHANGE:blah` and `BREAKING-CHANGE:blah` are rejected |
| `CommitChecker.RejectedTestLinesNoColon` | tests/test_checker.py:104-115 | `BREAKING CHANGE blah` and `BREAKING-CHANGE blah` are rejected |
| `CommitChecker.RejectedTestLinesNoDescription` | tests/test_checker.py:117-126 | `BREAKING CHANGE: ` and `BREAKING-CHANGE: ` are rejected |
| `CheckerRevisions.CheckOriginal` | pre-commit-conventional-commit-message/pre_commit_conventional_commit_message/check_commit_message.py:14-35 | the original function passes exactly when the rules hold with its fixed codes and limits and no comment removal; it reports an empty message exactly for an empty list |
| `CheckerRevisions.CheckIntermediate` | pre_commit_hooks/conventional_commits/checker.py:58-90 | the intermediate class passes exactly when the rules hold with comment removal and no breaking-change rule; it reports an empty message exactly when only comments are given |
| `CheckerRevisions.CheckCurrent` | conventional_commits/check_commit_message.py:78-110 | the current class passes exactly when the rules hold with comment removal and the breaking-change rule; it reports an empty message exactly when only comments are given |
| `CheckerRevisions.OriginalTreatsCommentAsHeader` | pre-commit-conventional-commit-message/pre_commit_conventional_commit_message/check_commit_message.py:14-19 | the original revision takes a leading comment line for the header and rejects it for its code |
| `CheckerRevisions.LaterRevisionsSkipComments` | pre_commit_hooks/conventional_commits/checker.py:98-103 | the later revisions check a message with leading comment lines exactly as the message without them |
| `CheckerRevisions.BreakingChangeRuleOnlyInCurrent` | pre_commit_hooks/conventional_commits/checker.py:143-148 | for one body line within the limit, the intermediate revision always passes and the current one passes iff the line obeys the breaking-change rule |
| `CheckerRevisions.NoDefaultCodeImp` | conventional_commits/check_commit_message.py:7-21 | `IMP` is not among the default codes, so a header opening with `IMP: ` has no allowed default code |
| `CheckerRevisions.CodeSetsDiffer` | pre-commit-conventional-commit-message/pre_commit_conventional_commit_message/check_commit_message.py:7 | an `IMP: ` header passes the original revision and is rejected for its code by the later ones under their defaults |
| `Patterns.MatchesAtStartMeans` | conventional_commits/check_commit_message.py:195 | for a pattern whose runs are separated by literals, greedy `re.match` succeeds iff some prefix matches in the regex semantics |
| `Patterns.SearchMeans` | conventional_commits/compile_release_notes.py:195 | for such a pattern, `search` succeeds iff some span of the text matches in the regex semantics |
| `Patterns.MatchFromSound` | conventional_commits/compile_release_notes.py:22-23 | every greedy match is a regex match |
| `Patterns.MatchFromComplete` | conventional_commits/compile_release_notes.py:22-23 | for separated patterns, greedy matching finds a match whenever one exists |
| `Strings.JoinSplit` | conventional_commits/compile_release_notes.py:123-126 | joining the pieces of a split with the same separator gives back the text |
| `Strings.SplitJoin` | conventional_commits/compile_release_notes.py:192 | splitting a join gives back the pieces when none holds the separator and the separator cannot overlap itself |
| `Strings.Strip` | conventional_commits/compile_release_notes.py:130-134 | the result is a slice that neither starts nor ends with a stripped character, and everything cut off is made of stripped characters |
| `Strings.NatToString` | conventional_commits/compile_release_notes.py:313-316 | the decimal text of the count is non-empty ASCII digits without a leading zero whose value is the count |
| `LogParsing.ParseStopPoint` | conventional_commits/compile_release_notes.py:75-78 | a stop point is accepted iff its upper-cased form is one of the two names, and is stored as that upper-cased name |
| `LogParsing.UpperAscii` | conventional_commits/compile_release_notes.py:75 | on ASCII text, upper-casing maps each character to its upper-case letter in place |
| `LogParsing.StopPointCaseInsensitive` | conventional_commits/compile_release_notes.py:75-78 | any ASCII spelling of a stop-point name in any letter case selects that stop point |
| `LogParsing.StopPointRoundTrip` | conventional_commits/compile_release_notes.py:16-18 | each stop-point name parses back to its stop point |
| `LogParsing.ReleaseDecorationMeans` | conventional_commits/compile_release_notes.py:194-196 | the walk stops at a decoration exactly when some span of it matches `tag: \d+\.\d+\.\d+`; the separate `"tag" in` test adds nothing |
| `LogParsing.NoDigitNoRelease` | conventional_commits/compile_release_notes.py:194-196 | a decoration without any digit, such as a non-semantic tag, never stops the walk |
| `LogParsing.SemanticVersionTagIsRelease` | conventional_commits/compile_release_notes.py:23 | any decoration containing `tag: X.Y.Z` with digit runs `X`, `Y` and `Z` stops the walk, whatever surrounds it |
| `LogParsing.ParseRecord` | conventional_commits/compile_release_notes.py:192 | a record unpacks iff splitting it at the field separator gives exactly four fields, and the fields joined back give the record |
| `LogParsing.ParseFormatRecord` | conventional_commits/compile_release_notes.py:177 | a record printed by the log format from separator-free fields parses back to those fields |
| `LogParsing.EmptyRecordMalformed` | conventional_commits/compile_release_notes.py:192 | the empty record left after the final terminator cannot be unpacked |
| `LogParsing.Classify` | conventional_commits/compile_release_notes.py:202-211 | a header is parsed iff it has a colon, ignored iff it has none and the greedy search finds the merge-ref pattern, and otherwise kept unparsed and stripped |
| `LogParsing.MergeRefMeans` | conventional_commits/compile_release_notes.py:22 | the greedy search for the merge-ref pattern succeeds iff some span of the header matches `Merge [0-9a-f]+ into [0-9a-f]+`, so a header is ignored iff it has no colon and holds such a span |
| `LogParsing.ClassifySplitsAtFirstColon` | conventional_commits/compile_release_notes.py:208-211 | the code is the stripped text before the first colon, the header the stripped rest with later colons kept, and the body is stripped |
| `LogParsing.GitLogReadsUpToRelease` | conventional_commits/compile_release_notes.py:191-213 | when the records before the first release are well formed, the result is those records classified and collected in order, and nothing from the release on |
| `LogParsing.GitLogMalformedRecordFails` | conventional_commits/compile_release_notes.py:192 | the first record reached that does not have four fields makes the walk fail with that record |
| `LogParsing.GitLogIgnoresAfterRelease` | conventional_commits/compile_release_notes.py:194-196 | replacing everything after the release record changes nothing |
| `LogParsing.UnreleasedHistoryFails` | conventional_commits/compile_release_notes.py:191-192 | well-formed records with no release, followed by the empty last record, make the walk fail |
| `LogParsing.SplitMessage` | conventional_commits/compile_release_notes.py:225-226 | the header, a newline if the message has one, and the body give back the message |
| `LogParsing.SplitMessageAtFirstNewline` | conventional_commits/compile_release_notes.py:225-226 | the header is the text before the first newline and the body everything after it |
| `LogParsing.ParsePullRequest` | conventional_commits/compile_release_notes.py:215-243 | every pull-request message is classified and collected in order, with no stop point |
| `ReleaseNotes.Lookup` | conventional_commits/compile_release_notes.py:264-267 | a found heading is the one the first entry with the code gives it; nothing is found exactly when no entry has the code |
| `ReleaseNotes.Headings` | conventional_commits/compile_release_notes.py:253 | the headings have no repeats and are exactly the mapping's values |
| `ReleaseNotes.HeadingsInFirstOccurrenceOrder` | conventional_commits/compile_release_notes.py:253 | of two headings, the earlier one occurs in the mapping before any entry of the later one |
| `ReleaseNotes.AddNote` | conventional_commits/compile_release_notes.py:264 | the note is appended to the list under its heading only; headings and other lists are unchanged |
| `ReleaseNotes.PutSection` | conventional_commits/compile_release_notes.py:269 | an existing heading keeps its place and gets the new list; a new heading is added last |
| `ReleaseNotes.RemoveSection` | conventional_commits/compile_release_notes.py:288 | exactly the sections under the popped key are removed, and the last section stays last when it is not popped |
| `ReleaseNotes.RemoveSectionKeepsOrder` | conventional_commits/compile_release_notes.py:288 | the sections left by the pop keep their order: their headings are the old headings with the popped key filtered out |
| `ReleaseNotes.CategoriseParsedSucceeds` | conventional_commits/compile_release_notes.py:256-267 | categorising succeeds iff every commit can be filed: its code's heading is not the count key, and `### Other` exists for an unknown code |
| `ReleaseNotes.CategoriseParsedFails` | conventional_commits/compile_release_notes.py:256-267 | a failure is the error of the first commit that cannot be filed |
| `ReleaseNotes.CategoriseParsedFiles` | conventional_commits/compile_release_notes.py:253-267 | on success the count is the number of breaking changes, and each heading holds the reference notes for it, in commit order |
| `ReleaseNotes.CategoriseMeans` | conventional_commits/compile_release_notes.py:245-270 | categorising then popping the count succeeds iff every commit can be filed; it then yields the count and one section per heading, each with its reference notes, plus `### Uncategorised!` holding the unparsed headers; the sections come in the mapping's first-occurrence heading order without the count key, then `### Uncategorised!` unless the mapping has it |
| `ReleaseNotes.CategoriseSectionOrder` | conventional_commits/compile_release_notes.py:253-269 | the sections to render are in dict order: the mapping's headings in first-occurrence order without the count key, then `### Uncategorised!` unless the mapping already has it, and no heading occurs twice |
| `ReleaseNotes.UncategorisedComesLast` | conventional_commits/compile_release_notes.py:269 | unless the mapping has its own `### Uncategorised!` heading, that section comes last |
| `ReleaseNotes.EveryCommitFiledOnce` | conventional_commits/compile_release_notes.py:256-267 | when every commit can be filed, the notes under all headings together number exactly the parsed commits |
| `ReleaseNotes.DefaultMappingFilesEverything` | conventional_commits/compile_release_notes.py:25-39 | under the default mapping every commit can be filed |
| `ReleaseNotes.DefaultMappingCategorises` | conventional_commits/compile_release_notes.py:245-270 | categorising any parsed commits with the default mapping succeeds |
| `ReleaseNotes.DefaultMappingNeverUncategorisable` | conventional_commits/compile_release_notes.py:91 | with no mapping given, compiling fails only for the stop point or an unreadable log, never in categorising |
| `ReleaseNotes.NoteLines` | conventional_commits/compile_release_notes.py:300 | one line per note, in order, each the list symbol, a space and the note |
| `ReleaseNotes.RenderSectionLines` | conventional_commits/compile_release_notes.py:295-301 | a heading is rendered iff it has notes; its text then reads back line by line as the heading, one symbol line per note, and a blank line |
| `ReleaseNotes.NotificationShape` | conventional_commits/compile_release_notes.py:306-318 | the notification starts with `*` and, like the count's digits, contains no `<` |
| `ReleaseNotes.NotificationIffBreakingChanges` | conventional_commits/compile_release_notes.py:286-293 | after the header line, the block continues with the notification exactly when the count is positive; the notification is followed by a line break, and with a zero count a line break follows the header directly |
| `ReleaseNotes.BuiltBlockDelimited` | conventional_commits/compile_release_notes.py:286-304 | a block built from texts without `<` is the start marker, text with no marker character, and the end marker |
| `ReleaseNotes.MergeKeepsSurroundingText` | conventional_commits/compile_release_notes.py:123-134 | with one start marker followed by an end marker, the text before the start and after the last end is kept, up to the trimming of lines 128-134 (newlines at the outer ends of each zone, then `"` and newlines at the outer ends of the result), and the block replaces what lay between |
| `ReleaseNotes.MergeAppendsWithoutMarkers` | conventional_commits/compile_release_notes.py:123-134 | previous notes without a start marker are kept, up to the trimming of lines 128-134 (newlines at the outer ends of each zone, then `"` and newlines at the outer ends of the result), and followed by the new block |
| `ReleaseNotes.RecompilingReplacesBlock` | conventional_commits/compile_release_notes.py:123-134 | merging over notes that hold an earlier generated block replaces just that block and keeps the text around it, up to the trimming of lines 128-134 (newlines at the outer ends of each zone, then `"` and newlines at the outer ends of the result) |
| `ReleaseNotes.CompileRejectsUnknownStopPoint` | conventional_commits/compile_release_notes.py:75-76 | the compiler fails for the stop point exactly when the stop point is unknown |
| `ReleaseNotes.CompileSkipsMarkedNotes` | conventional_commits/compile_release_notes.py:109-110 | previous notes holding the skip marker are returned unchanged |
| `ReleaseNotes.CompileReadsPullRequestNotLog` | conventional_commits/compile_release_notes.py:112-115 | with a pull request, the git log does not affect the result |
| `ReleaseNotes.CompileFailsOnUnreadableLog` | conventional_commits/compile_release_notes.py:114-115 | without a pull request, compiling fails on the log exactly when the log walk fails |
| `ReleaseNotes.CompileOutcome` | conventional_commits/compile_release_notes.py:117-134 | a successful result (previous notes without the skip marker) comes from commits that were read successfully, and is built from their categorisation, either as a fresh block or as a block merged into the previous notes |
| `ReleaseNotes.CompileFreshNotes` | conventional_commits/compile_release_notes.py:120-121 | without previous notes, the result starts with the start marker and ends with the end marker |
| `ReleaseNotes.CompileKeepsSurroundingNotes` | conventional_commits/compile_release_notes.py:123-134 | with previous notes around one earlier block, the result keeps the surrounding text, up to the trimming of lines 128-134 (newlines at the outer ends of each zone, then `"` and newlines at the outer ends of the result), and puts in its place a new block built from the categorisation of the commits read |

## Left out

- Command-line entry points (`main`, argument parsing, reading `COMMIT_EDITMSG`, printing, exit codes, `cli.py`): I/O glue.
- `_get_current_pull_request`: the network request becomes the `pr` parameter. As written, it cannot return a pull request. On a 200 response, line 152 reads `self.current_pull_request["commits_url"]`. At that point the attribute is still `None`: it is set at line 80 and assigned only after the call returns, at line 84. So every successful fetch raises `TypeError`. On any other status (line 150) the method logs, resets the stop point to `LAST_RELEASE` and returns `None`. The fallback is not modelled, since the stop point has no further effect then. The `pr == Some(...)` path (`LogParsing.ParsePullRequest`, `ReleaseNotes.CompileReadsPullRequestNotLog`, `ReleaseNotes.PullRequestLink`) models lines 215-243 and 279-282 as written. The skip marker and the splice into the previous description (lines 84-87, 109-134) also depend on a fetched pull request. The program as it stands reaches none of this.
- `_get_git_log`: the subprocess call becomes the `gitLog` parameter, the already-split records. The `@@@` splitting and `stdout.strip()` are not modelled. Only their consequence for the final empty record is stated.
- `check_semantic_version.py`, logging and the test fixtures: subprocess calls, configuration and I/O.
- Error message texts: each `ValueError` becomes an error kind. The source raises one message for both breaking-change failures; the model tells them apart as `LowercaseBreakingChange` and `MalformedBreakingChange`.
- Unicode in regular expressions: `\d` is modelled as the ASCII digits only. Python's pattern also matches other Unicode decimal digits.
- `LogParsing.Upper`: models `str.upper()` on ASCII, plus the few non-ASCII characters whose upper case is spelled with the letters of the stop-point names. Every other character is kept as is, which cannot change whether a name matches.
- The configurable header-ending pattern is a character predicate; its default is ASCII letters and digits.
- Allowed commit codes are a set of code strings. The descriptions in the source's dict are never consulted by the rules.
- In-place mutation of the caller's line list by `_remove_comment_lines`: modelled as a pure filter, plus the index-popping algorithm proved equal to it.
- A custom mapping is a list of pairs. A dict's codes are distinct, but the sequence type does not enforce that. `Lookup` takes the first entry for a code, and its contract says so.
- `ReleaseNotes.NotificationShape`: the notification's wording is given by its definition and only its shape is proved. The count appears as decimal digits (`Strings.NatToString`).
- Test expectations that contradict the source are not modelled: a `# Contents` header, an upgrade-instructions section, emoji prefixes, and `### Other` placed after `### Chores`.
