# WorkingWithFilesAndFolders — duplicate-copy scanner and command line

This project models the two pieces of decision logic in the
WorkingWithFilesAndFolders sample program:

- **`DeleteDuplicateFiles`** walks a directory tree with a window one entry wide.
  It reports the previous file as a duplicate of the current one when three things hold:
  - the previous file's name without extension ends with `Copy`;
  - the current path starts with the previous path cut at its last ` - Copy`;
  - the two byte lengths are equal.

  Each report is printed as a `delete` line. The reported file is deleted unless `checkOnly` is set.
- **`Main`** picks an operation from its arguments, and **`ShowUsage`** prints
  the nine-row option table.

The filesystem becomes data:
- The directory enumeration is an input `seq<Entry>` of `(path, length)` pairs, in the order the filesystem yields them.
- Printing a `delete` line becomes an element of `Outcome.reports`.
- `FileInfo.Delete` becomes membership of `Outcome.deleted`.
- The scan returns `Finished(outcome)`, or `ArgumentOutOfRange(index, outcome)` when `Substring(0, -1)` throws. In the failure case `outcome` is what had already been printed and deleted.

`Main` is a total function from the argument list to a `Command` that names the
operation run. `ShowUsage` becomes the list of lines it prints.

Modules:

- `PathStrings` (strings.dfy): ordinal `StartsWith`, `EndsWith`,
  `LastIndexOf(string)`, `LastIndexOf(char)`, `Path.GetFileName` and
  `Path.GetFileNameWithoutExtension`. `LastIndexOf`, `LastIndexOfChar`,
  `FileName` and `FileNameWithoutExtension` are each followed by a lemma that
  characterises them; the others are plain definitions.
- `Duplicates` (duplicates.dfy): contains
  - `Entry`, `Outcome`, `ScanResult`;
  - the per-pair decision `Judge`;
  - the loop `ScanFrom`, generic over the per-pair rule;
  - `Scan`, the routine as written;
  - `ScanCorrected`, the routine with the failing case passed over (see Findings).
- `ScanReference` (scan_reference.dfy): an index-based reference scan over
  marks (`Reference`) and the proof that the loop computes it for any rule
  that keeps the first iteration quiet.
- `DuplicateRules` (duplicate_rules.dfy): what the scan reports, deletes and
  where it fails, stated entry by entry in terms of names and lengths.
- `DuplicateScenarios` (scenarios.dfy): the scanner on concrete directory
  layouts. Every scenario is stated for any directory ending in a separator,
  any base name without a separator, and any plain extension (one holding no
  '.', space or separator); some add a condition of their own, named in
  their row.
- `Cli` (cli.dfy): the option table, `Dispatch` (Main), the usage lines, and
  their partners:
  - `Invocation`, an argument list for each command;
  - `ParseRow`, which reads a usage line back into a table row.

Two details of the loop that the model keeps:

- The first iteration compares entry 0 with `string.Empty` and reports
  nothing (Program.cs:103-107). Entry 0 is judged as the previous file in
  the second iteration and can be reported then. What is proved:
  - the first iteration never reports (`DuplicateRules.FirstIterationKeeps`);
  - only entries that have a successor, at indices 0..n-2, can be reported (`DuplicateRules.ScanReportsByIndex`).
- The previous path is cut at the *last* ` - Copy` (`LastIndexOf`, Program.cs:109).

## Model

| member | source | states |
|---|---|---|
| Duplicates.Judge | FilesAndStreams/FilesAndStreamsSamples/WorkingWithFilesAndFolders/Program.cs:106-113 | no contract of its own: one iteration's decision; what it decides is stated by DuplicateRules.JudgeMatchesIndexRule and DuplicateScenarios.JudgeCopyThenOriginal |
| Duplicates.Scan | FilesAndStreams/FilesAndStreamsSamples/WorkingWithFilesAndFolders/Program.cs:100-124 | no contract of its own: the routine as written; see DuplicateRules.ScanReportsByIndex, ScanFailsAtFirstUnmatchedCandidate and ScanDeletesReportedUnlessCheckOnly |
| Duplicates.ScanCorrected | FilesAndStreams/FilesAndStreamsSamples/WorkingWithFilesAndFolders/Program.cs:100-124 | no contract of its own: the routine with the unmatched candidate passed over; see DuplicateRules.CorrectedScanReportsAll and CorrectedScanAgreesWhenScanFinishes |
| Cli.Dispatch | FilesAndStreams/FilesAndStreamsSamples/WorkingWithFilesAndFolders/Program.cs:31-73 | no contract of its own: Main's choice of operation; see the Cli.Dispatch* lemmas and Cli.InvocationRoundTrip |
| PathStrings.LastIndexOfSpec | FilesAndStreams/FilesAndStreamsSamples/WorkingWithFilesAndFolders/Program.cs:109 | `LastIndexOf(" - Copy")` returns an occurrence of the marker, returns -1 exactly when there is none, and no occurrence starts after the one it returns |
| PathStrings.LastIndexOfCharSpec | FilesAndStreams/FilesAndStreamsSamples/WorkingWithFilesAndFolders/Program.cs:106 | the last-'.' search used for the extension returns a position holding the character, with no later occurrence |
| PathStrings.FileNameSpec | FilesAndStreams/FilesAndStreamsSamples/WorkingWithFilesAndFolders/Program.cs:106 | the file name is a suffix of the path with no directory separator in it, preceded by a separator whenever it is shorter than the path |
| PathStrings.FileNameWithoutExtensionSpec | FilesAndStreams/FilesAndStreamsSamples/WorkingWithFilesAndFolders/Program.cs:106 | the stem is a prefix of the file name: all of it when the name has no '.', otherwise ending just before the last '.' |
| DuplicateRules.JudgeMatchesIndexRule | FilesAndStreams/FilesAndStreamsSamples/WorkingWithFilesAndFolders/Program.cs:106-113 | one loop iteration throws exactly for a candidate without " - Copy", and reports exactly when the candidate's path cut at its last " - Copy" prefixes the next path and the lengths agree; otherwise it does nothing |
| DuplicateRules.FirstIterationKeeps | FilesAndStreams/FilesAndStreamsSamples/WorkingWithFilesAndFolders/Program.cs:103-107 | the first iteration, whose previous name is empty, neither reports nor throws, whatever the first entry is |
| DuplicateRules.MarksMatchIndexRule | FilesAndStreams/FilesAndStreamsSamples/WorkingWithFilesAndFolders/Program.cs:104-122 | the per-entry report and failure marks of the loop are the name-and-length rule, and the corrected rule never fails |
| DuplicateRules.ScanIsReference | FilesAndStreams/FilesAndStreamsSamples/WorkingWithFilesAndFolders/Program.cs:100-124 | the scan as written, and the corrected scan, equal the index-based reference scan of their rules |
| DuplicateRules.ScanFailsAtFirstUnmatchedCandidate | FilesAndStreams/FilesAndStreamsSamples/WorkingWithFilesAndFolders/Program.cs:108-109 | the scan throws exactly when some entry with a successor is a candidate without " - Copy", and then at the first such entry |
| DuplicateRules.ScanReportsByIndex | FilesAndStreams/FilesAndStreamsSamples/WorkingWithFilesAndFolders/Program.cs:104-122 | the reports are the paths of the entries satisfying the rule before the point where the scan stopped, in input order, each at most once, each with a successor; reports emitted before a failure stay |
| DuplicateRules.ScanDeletesReportedUnlessCheckOnly | FilesAndStreams/FilesAndStreamsSamples/WorkingWithFilesAndFolders/Program.cs:115-119 | in report-only mode nothing is deleted; otherwise the deleted set is exactly the set of reported paths, each an enumerated path |
| DuplicateRules.ShortEnumerationDoesNothing | FilesAndStreams/FilesAndStreamsSamples/WorkingWithFilesAndFolders/Program.cs:103-122 | with at most one file nothing is reported, deleted or thrown |
| DuplicateRules.CorrectedScanReportsAll | FilesAndStreams/FilesAndStreamsSamples/WorkingWithFilesAndFolders/Program.cs:106-119 | the corrected scan always finishes, reporting every entry satisfying the rule over the whole enumeration and deleting them unless checking only |
| DuplicateRules.CorrectedScanAgreesWhenScanFinishes | FilesAndStreams/FilesAndStreamsSamples/WorkingWithFilesAndFolders/Program.cs:100-124 | wherever the scan as written does not throw, the corrected scan has the same result |
| ScanReference.ScanMatchesReference | FilesAndStreams/FilesAndStreamsSamples/WorkingWithFilesAndFolders/Program.cs:103-123 | the sliding-window loop, for any per-pair rule that keeps the first iteration quiet, equals the reference: stop at the first failing pair, having reported the marked entries before it in order |
| ScanReference.EffectsByIndex | FilesAndStreams/FilesAndStreamsSamples/WorkingWithFilesAndFolders/Program.cs:113-119 | recording the marked entries one by one prints their paths in index order and deletes exactly those paths unless checking only |
| DuplicateScenarios.CopyNameFacts | FilesAndStreams/FilesAndStreamsSamples/WorkingWithFilesAndFolders/Program.cs:106-109 | for "<dir><base> - Copy.<ext>" the stem ends with "Copy" and the last " - Copy" starts right after "<dir><base>" |
| DuplicateScenarios.JudgeCopyThenOriginal | FilesAndStreams/FilesAndStreamsSamples/WorkingWithFilesAndFolders/Program.cs:106-113 | "<base> - Copy.<ext>" followed by "<base>.<ext>" is a duplicate exactly when the lengths agree |
| DuplicateScenarios.CopyThenOriginalIsReported | FilesAndStreams/FilesAndStreamsSamples/WorkingWithFilesAndFolders/Program.cs:100-124 | in the two-file enumeration copy then original, with equal lengths, the copy is reported once, and deleted exactly when not checking only |
| DuplicateScenarios.CopyWithOtherLengthIsKept | FilesAndStreams/FilesAndStreamsSamples/WorkingWithFilesAndFolders/Program.cs:113 | in the two-file enumeration copy then original, a copy whose length differs from its original's is not reported |
| DuplicateScenarios.InterveningFileHidesCopy | FilesAndStreams/FilesAndStreamsSamples/WorkingWithFilesAndFolders/Program.cs:104-122 | a copy separated from its original by a file whose path does not start with "<dir><base>" and whose stem does not end in "Copy" is not reported: the window is one entry wide |
| DuplicateScenarios.CopyReportedAgainstNeighbour | FilesAndStreams/FilesAndStreamsSamples/WorkingWithFilesAndFolders/Program.cs:104-122 | the copy is judged against the file that follows it, not against its original: "<base> - Copyright.<ext>" of the copy's length between the copy and an original of another length gets the copy reported, and nothing else |
| DuplicateScenarios.CopyOriginalThenOtherFile | FilesAndStreams/FilesAndStreamsSamples/WorkingWithFilesAndFolders/Program.cs:104-122 | copy, original, then any file, when <base> does not end with "Copy": only the copy is reported |
| DuplicateScenarios.UnmatchedCopyAbortsScan | FilesAndStreams/FilesAndStreamsSamples/WorkingWithFilesAndFolders/Program.cs:108-109 | "<dir><base>Copy.<ext>", with no space in "<dir><base>" (so the path holds no " - Copy"), followed by any file makes the scan throw before anything is reported, while the corrected scan passes over it |
| DuplicateScenarios.CopyOfCopyNamedOriginalThrows | FilesAndStreams/FilesAndStreamsSamples/WorkingWithFilesAndFolders/Program.cs:104-122 | for a <base> ending in "Copy" with no space in "<dir><base>", the ordinary copy pair "<base> - Copy.<ext>", "<base>.<ext>" followed by any file reports the copy and then throws on the original, keeping that report |
| Cli.DispatchUsageExactly | FilesAndStreams/FilesAndStreamsSamples/WorkingWithFilesAndFolders/Program.cs:31-36 | usage is shown exactly for no arguments, more than two, or a first argument that is not a flag of the table |
| Cli.DispatchReadAndScan | FilesAndStreams/FilesAndStreamsSamples/WorkingWithFilesAndFolders/Program.cs:38-45 | "-r f" reads f and "-dd d" scans d; the scan is reached only by "-dd d" and never with deletion enabled |
| Cli.DispatchNoOpExactly | FilesAndStreams/FilesAndStreamsSamples/WorkingWithFilesAndFolders/Program.cs:46-73 | nothing happens exactly when "-r" or "-dd" is given alone |
| Cli.SecondArgumentIgnored | FilesAndStreams/FilesAndStreamsSamples/WorkingWithFilesAndFolders/Program.cs:46-73 | every flag other than "-r" and "-dd" does the same with or without a second argument |
| Cli.DispatchRunsTheFlagsOperation | FilesAndStreams/FilesAndStreamsSamples/WorkingWithFilesAndFolders/Program.cs:16-73 | the operation run is the one the option table pairs with the flag given, and only usage and the empty default run none |
| Cli.DispatchIsReachable | FilesAndStreams/FilesAndStreamsSamples/WorkingWithFilesAndFolders/Program.cs:38-73 | every dispatched command is reachable: the scan only in report-only mode, file information only about ./Program.cs |
| Cli.InvocationRoundTrip | FilesAndStreams/FilesAndStreamsSamples/WorkingWithFilesAndFolders/Program.cs:31-73 | each reachable command is what its argument list dispatches to |
| Cli.UsageLines | FilesAndStreams/FilesAndStreamsSamples/WorkingWithFilesAndFolders/Program.cs:79-83 | the usage text is the header followed by exactly one tab-separated flag and name line per table row, in table order |
| Cli.ParseRowLine | FilesAndStreams/FilesAndStreamsSamples/WorkingWithFilesAndFolders/Program.cs:82 | a usage line reads back as the row it was printed from, for a flag without a tab |
| Cli.UsageLinesReadBack | FilesAndStreams/FilesAndStreamsSamples/WorkingWithFilesAndFolders/Program.cs:79-83 | the header is not a row line, and the other lines read back as the table's rows in order |
| Cli.FlagsHaveNoTab | FilesAndStreams/FilesAndStreamsSamples/WorkingWithFilesAndFolders/Program.cs:16-27 | no flag of the option table holds a tab, so its usage lines read back |
| Cli.UsageListsAcceptedFlags | FilesAndStreams/FilesAndStreamsSamples/WorkingWithFilesAndFolders/Program.cs:31-32 | the flags the usage text lists are exactly the flags Main accepts |

## Left out

- The filesystem:
  - `Directory.EnumerateFiles` is replaced by the input sequence, so its order, collation and recursion into subdirectories are not modelled;
  - `FileInfo.Length` is an input;
  - `FileInfo.Delete` becomes set membership, and a failing deletion is not modelled.
- The scan's only modelled error is the `ArgumentOutOfRangeException` of `Substring(0, -1)`. These other exceptions are not modelled:
  - from `Directory.EnumerateFiles` (Program.cs:102): `DirectoryNotFoundException` for a missing directory, and `UnauthorizedAccessException` during the walk;
  - from reading `Length` (Program.cs:111-113): `FileNotFoundException` for a file that vanished after it was enumerated.
- Enumerations that repeat a path, or name a file that was already deleted, are not treated specially. A repeated path could be reported twice.
- Report lines: the model records the enumerated path. Resolving it to `FileInfo.FullName` against the current directory, and the `delete ` prefix of the printed line, are not modelled.
- Strings are sequences of Unicode scalar values, not UTF-16 code units. A file name holding an unpaired surrogate cannot be represented, and a supplementary character is one character here but two code units in .NET. The scanner's decisions do not depend on this for well-formed names, since " - Copy", "Copy", '.' and the separators are all ASCII.
- String comparison is ordinal. Culture-sensitive `EndsWith`, `StartsWith` and `LastIndexOf` are not modelled.
- Path rules follow Windows: `Path.GetFileName` treats both '\\' (the directory separator) and '/' (the alternate one) as separators. On Unix '\\' is an ordinary file-name character, so a name that contains it can be judged differently there. Drive prefixes such as "C:" (the volume separator ':') are not stripped, and invalid path characters are not rejected.
- Other operations of the program:
  - `FileInformation`, `ChangeFileProperties`, `CreateAFile`, `CopyFile1`, `CopyFile2`, `WriteAFile` and `ReadingAFileLineByLine` are I/O wrappers with no decision logic;
  - `GetDocumentsFolder` depends on conditional compilation and environment variables.

  A `Command` only names which of these runs, with its argument.

## Findings

| source | as written | input that shows it | evidently intended | confidence | as-written member | corrected member |
|---|---|---|---|---|---|---|
| FilesAndStreams/FilesAndStreamsSamples/WorkingWithFilesAndFolders/Program.cs:108-109 | when the previous file's stem ends with "Copy" but its path holds no " - Copy", `LastIndexOf` returns -1 and `Substring(0, -1)` throws ArgumentOutOfRangeException, aborting the whole scan | "/d/Copy.txt" (or "/d/PhotoCopy.txt") enumerated before any other file; also "/d/PhotoCopy - Copy.jpg", "/d/PhotoCopy.jpg" of equal length, then any file | such a file is not a copy made by the " - Copy" naming convention and is passed over; the scan goes on | not executed | DuplicateScenarios.UnmatchedCopyAbortsScan | DuplicateRules.CorrectedScanReportsAll |

Details:
- The as-written loop is `Duplicates.Scan`. `DuplicateRules.ScanFailsAtFirstUnmatchedCandidate` characterises exactly when it throws.
- The corrected loop is `Duplicates.ScanCorrected`. It always finishes, and it agrees with `Scan` whenever `Scan` finishes (`DuplicateRules.CorrectedScanAgreesWhenScanFinishes`).
