/** The command-line front end of the sample: the option table, the usage
    text that ShowUsage prints, and the way Main chooses an operation from
    its arguments. Each operation is named by a Command instead of run. */
module Cli {

  datatype Option<T> = None | Some(value: T)

  /** A row of the option table: a flag and the name of the operation it
      selects. */
  datatype OptionRow = OptionRow(flag: string, name: string)

  /** The option table, in the order ShowUsage prints it. */
  const Options: seq<OptionRow> := [
    OptionRow("-d", "GetDocumentsFolder"),
    OptionRow("-fi", "FileInformation"),
    OptionRow("-p", "ChangeFileProperties"),
    OptionRow("-c", "CreateAFile"),
    OptionRow("-copy1", "CopyFile1"),
    OptionRow("-copy2", "CopyFile2"),
    OptionRow("-r", "ReadingAFileLineByLine"),
    OptionRow("-w", "WriteAFile"),
    OptionRow("-dd", "DeleteDuplicateFiles")
  ]

  /** The first line ShowUsage prints. */
  const UsageHeader := "Usage: " + "WorkingWithFilesAndFolders [options] [filename|directory]"

  /** The file that "-fi" describes. */
  const FileInformationTarget := "./Program.cs"

  /** What one run of the program does. */
  datatype Command =
    | Usage
    | ReadLines(path: string)
    | ScanDuplicates(directory: string, checkOnly: bool)
    | DocumentsFolder
    | FileInfo(fileName: string)
    | ChangeProps
    | Create
    | Copy1
    | Copy2
    | Write
    | NoOp

  /** The flag is in the first column of the option table. */
  predicate IsKnownFlag(flag: string) {
    exists i :: 0 <= i < |Options| && Options[i].flag == flag
  }

  /** Main: usage unless there are one or two arguments and the first is a
      known flag; "-r" and "-dd" act only with a second argument; any other
      flag ignores its second argument; "-r" or "-dd" alone reaches the empty
      default of the switch. */
  function Dispatch(args: seq<string>): Command {
    if |args| == 0 || |args| > 2 || !IsKnownFlag(args[0]) then Usage
    else if args[0] == "-r" && |args| == 2 then ReadLines(args[1])
    else if args[0] == "-dd" && |args| == 2 then ScanDuplicates(args[1], true)
    else if args[0] == "-d" then DocumentsFolder
    else if args[0] == "-fi" then FileInfo(FileInformationTarget)
    else if args[0] == "-p" then ChangeProps
    else if args[0] == "-c" then Create
    else if args[0] == "-copy1" then Copy1
    else if args[0] == "-copy2" then Copy2
    else if args[0] == "-w" then Write
    else NoOp
  }

  /** The operation of the program that a command runs, by the name the
      option table uses for it. */
  function OperationName(c: Command): Option<string> {
    match c
    case Usage => None
    case NoOp => None
    case ReadLines(_) => Some("ReadingAFileLineByLine")
    case ScanDuplicates(_, _) => Some("DeleteDuplicateFiles")
    case DocumentsFolder => Some("GetDocumentsFolder")
    case FileInfo(_) => Some("FileInformation")
    case ChangeProps => Some("ChangeFileProperties")
    case Create => Some("CreateAFile")
    case Copy1 => Some("CopyFile1")
    case Copy2 => Some("CopyFile2")
    case Write => Some("WriteAFile")
  }

  /** The commands some argument list leads to: the scan only in report-only
      mode, and file information only about the program's own source. */
  predicate Reachable(c: Command) {
    match c
    case ScanDuplicates(_, checkOnly) => checkOnly
    case FileInfo(fileName) => fileName == FileInformationTarget
    case _ => true
  }

  /** An argument list that leads to `c`. */
  function Invocation(c: Command): seq<string> {
    match c
    case Usage => []
    case ReadLines(path) => ["-r", path]
    case ScanDuplicates(directory, _) => ["-dd", directory]
    case DocumentsFolder => ["-d"]
    case FileInfo(_) => ["-fi"]
    case ChangeProps => ["-p"]
    case Create => ["-c"]
    case Copy1 => ["-copy1"]
    case Copy2 => ["-copy2"]
    case Write => ["-w"]
    case NoOp => ["-r"]
  }

  /** Usage is printed exactly for an empty argument list, one longer than
      two, or one whose first argument is not a flag of the table. */
  lemma DispatchUsageExactly(args: seq<string>)
    ensures Dispatch(args) == Usage <==> |args| == 0 || |args| > 2 || !IsKnownFlag(args[0])
  {
  }

  /** The two flags that take an argument are in the table. */
  lemma ArgumentFlags()
    ensures IsKnownFlag("-r") && IsKnownFlag("-dd")
  {
    assert Options[6].flag == "-r" && Options[8].flag == "-dd";
  }

  /** The flags of the table, one by one. */
  lemma TableFlags()
    ensures IsKnownFlag("-d") && IsKnownFlag("-fi") && IsKnownFlag("-p")
    ensures IsKnownFlag("-c") && IsKnownFlag("-copy1") && IsKnownFlag("-copy2")
    ensures IsKnownFlag("-r") && IsKnownFlag("-w") && IsKnownFlag("-dd")
  {
    ArgumentFlags();
    assert Options[0].flag == "-d" && Options[1].flag == "-fi" && Options[2].flag == "-p";
    assert Options[3].flag == "-c" && Options[4].flag == "-copy1" && Options[5].flag == "-copy2";
    assert Options[7].flag == "-w";
  }

  /** "-r" and "-dd" with an argument read the file and scan the directory;
      the scan is reached only that way, and always in report-only mode. */
  lemma DispatchReadAndScan(args: seq<string>)
    ensures |args| == 2 && args[0] == "-r" ==> Dispatch(args) == ReadLines(args[1])
    ensures |args| == 2 && args[0] == "-dd" ==> Dispatch(args) == ScanDuplicates(args[1], true)
    ensures Dispatch(args).ScanDuplicates? <==> |args| == 2 && args[0] == "-dd"
    ensures Dispatch(args).ScanDuplicates? ==> Dispatch(args).checkOnly
  {
    ArgumentFlags();
  }

  /** Nothing happens exactly when "-r" or "-dd" comes alone. */
  lemma DispatchNoOpExactly(args: seq<string>)
    ensures Dispatch(args) == NoOp <==> |args| == 1 && (args[0] == "-r" || args[0] == "-dd")
  {
    ArgumentFlags();
  }

  /** Every flag other than "-r" and "-dd" ignores a second argument. */
  lemma SecondArgumentIgnored(flag: string, extra: string)
    requires flag != "-r" && flag != "-dd"
    ensures Dispatch([flag, extra]) == Dispatch([flag])
  {
  }

  /** A command that runs an operation runs the one the table lists beside
      the flag given, and every accepted flag runs one unless it is "-r" or
      "-dd" without an argument. */
  lemma DispatchRunsTheFlagsOperation(args: seq<string>)
    ensures var c := Dispatch(args);
      && (OperationName(c).Some? ==> OptionRow(args[0], OperationName(c).value) in Options)
      && (OperationName(c).None? <==> c == Usage || c == NoOp)
  {
  }

  /** Every command an argument list leads to is reachable. */
  lemma DispatchIsReachable(args: seq<string>)
    ensures Reachable(Dispatch(args))
  {
  }

  /** Each reachable command is what its invocation leads to. */
  lemma InvocationRoundTrip(c: Command)
    requires Reachable(c)
    ensures Dispatch(Invocation(c)) == c
  {
    TableFlags();
  }

  /** One usage line: a tab, the flag, a tab, the operation name. */
  function RowLine(row: OptionRow): string {
    "\t" + row.flag + "\t" + row.name
  }

  /** The usage text of a table: the header, then one line per row in
      table order. ShowUsage prints the usage text of Options. */
  function UsageLines(rows: seq<OptionRow>): (lines: seq<string>)
    ensures |lines| == |rows| + 1
    ensures lines[0] == UsageHeader
    ensures forall i :: 0 <= i < |rows| ==> lines[i + 1] == RowLine(rows[i])
  {
    if rows == [] then [UsageHeader]
    else UsageLines(rows[..|rows| - 1]) + [RowLine(rows[|rows| - 1])]
  }

  /** The first index of `c` in `s`, or -1. */
  function IndexOfChar(s: string, c: char): (r: int)
    ensures -1 <= r < |s|
    ensures r >= 0 ==> s[r] == c
    ensures forall k :: 0 <= k < |s| && (r < 0 || k < r) ==> s[k] != c
  {
    if |s| == 0 then -1
    else if s[0] == c then 0
    else var r := IndexOfChar(s[1..], c); if r < 0 then -1 else r + 1
  }

  /** Reads a usage line back into a table row: a leading tab, the flag up
      to the next tab, and the name after it; other lines give None. */
  function ParseRow(line: string): Option<OptionRow> {
    if |line| == 0 || line[0] != '\t' then None
    else
      var rest := line[1..];
      var k := IndexOfChar(rest, '\t');
      if k < 0 then None else Some(OptionRow(rest[..k], rest[k + 1..]))
  }

  /** A row whose flag holds no tab is read back from its usage line. */
  lemma ParseRowLine(row: OptionRow)
    requires '\t' !in row.flag
    ensures ParseRow(RowLine(row)) == Some(row)
  {
    var line := RowLine(row);
    var rest := line[1..];
    assert rest == row.flag + "\t" + row.name;
    assert rest[|row.flag|] == '\t';
    assert rest[..|row.flag|] == row.flag;
    assert rest[|row.flag| + 1..] == row.name;
  }

  /** No flag of the table holds a tab. */
  lemma FlagsHaveNoTab()
    ensures forall i :: 0 <= i < |Options| ==> '\t' !in Options[i].flag
  {
  }

  /** The usage text of a table whose flags hold no tab reads back as the
      table: the header is not a row, and the other lines are the rows in
      order. */
  lemma {:induction false} UsageLinesReadBack(rows: seq<OptionRow>)
    requires forall i :: 0 <= i < |rows| ==> '\t' !in rows[i].flag
    ensures ParseRow(UsageLines(rows)[0]) == None
    ensures forall i :: 0 <= i < |rows| ==> ParseRow(UsageLines(rows)[i + 1]) == Some(rows[i])
  {
    assert UsageHeader[0] == 'U';
    forall i | 0 <= i < |rows|
      ensures ParseRow(UsageLines(rows)[i + 1]) == Some(rows[i])
    {
      ParseRowLine(rows[i]);
    }
  }

  /** The flags the usage text lists are exactly the flags Main accepts. */
  lemma UsageListsAcceptedFlags(flag: string)
    ensures IsKnownFlag(flag) <==>
      exists i :: 1 <= i < |UsageLines(Options)| && ParseRow(UsageLines(Options)[i]).Some?
                  && ParseRow(UsageLines(Options)[i]).value.flag == flag
  {
    FlagsHaveNoTab();
    UsageLinesReadBack(Options);
    forall i | 1 <= i < |UsageLines(Options)|
      ensures ParseRow(UsageLines(Options)[i]) == Some(Options[i - 1])
    {
      assert UsageLines(Options)[i] == UsageLines(Options)[(i - 1) + 1];
    }
    if IsKnownFlag(flag) {
      var i :| 0 <= i < |Options| && Options[i].flag == flag;
      assert ParseRow(UsageLines(Options)[i + 1]) == Some(Options[i]);
    }
  }
}
