/** The duplicate-copy scanner of DeleteDuplicateFiles. The directory
    enumeration is an input sequence of entries in the order the filesystem
    yields them; printing "delete <path>" becomes a report and FileInfo.Delete
    becomes membership of the deleted set. */
module Duplicates {
  import opened PathStrings

  /** One enumerated file: its path and its byte length (FileInfo.Length). */
  datatype Entry = Entry(path: string, length: nat)

  /** What a scan has done so far: the reported paths, in the order the
      "delete" lines were printed, and the paths deleted from disk. */
  datatype Outcome = Outcome(reports: seq<string>, deleted: set<string>)

  /** A scan either runs to the end of the enumeration, or stops with the
      ArgumentOutOfRangeException of Substring(0, -1) raised while the entry
      at `index` was the previous file; what was printed and deleted before
      that point stays. */
  datatype ScanResult =
    | Finished(outcome: Outcome)
    | ArgumentOutOfRange(index: nat, outcome: Outcome)

  /** The decision taken for one (previous, current) pair. */
  datatype Verdict = Keep | Duplicate | SubstringFails

  /** The stem suffix that makes the previous file a candidate. */
  const CopySuffix := "Copy"

  /** The marker whose last occurrence cuts the previous path. */
  const CopyMarker := " - Copy"

  /** The previous file before the first iteration: string.Empty. Its length
      is never consulted, because the empty-name guard stops the test first. */
  const NoPrevious := Entry("", 0)

  /** One iteration of the loop as written: the previous file is a duplicate
      of the current one when its stem ends with "Copy", the current path
      starts with the previous path cut at its last " - Copy", and the lengths
      agree. The tests are evaluated left to right and stop at the first that
      fails; a missing " - Copy" makes Substring(0, -1) throw. */
  function Judge(previous: Entry, current: Entry): Verdict {
    var stem := FileNameWithoutExtension(previous.path);
    if previous.path == "" || !EndsWith(stem, CopySuffix) then Keep
    else
      var cut := LastIndexOf(previous.path, CopyMarker);
      if cut < 0 then SubstringFails
      else if !StartsWith(current.path, previous.path[..cut]) then Keep
      else if previous.length == current.length then Duplicate
      else Keep
  }

  /** The same iteration with a candidate that lacks " - Copy" passed over
      instead of aborting the scan. */
  function JudgeSkippingUnmatched(previous: Entry, current: Entry): Verdict {
    var verdict := Judge(previous, current);
    if verdict == SubstringFails then Keep else verdict
  }

  /** The value of `previousFileName` when entry `i` is the current file. */
  function Previous(entries: seq<Entry>, i: nat): Entry
    requires i < |entries|
  {
    if i == 0 then NoPrevious else entries[i - 1]
  }

  /** Print the report line for `path` and, unless `checkOnly`, delete it. */
  function Record(acc: Outcome, path: string, checkOnly: bool): Outcome {
    Outcome(acc.reports + [path], if checkOnly then acc.deleted else acc.deleted + {path})
  }

  /** The foreach loop from entry `i` on, deciding each pair with `rule`,
      with `acc` the effects so far. */
  function ScanFrom(rule: (Entry, Entry) -> Verdict, entries: seq<Entry>, i: nat, checkOnly: bool, acc: Outcome): ScanResult
    requires i <= |entries|
    decreases |entries| - i
  {
    if i == |entries| then Finished(acc)
    else
      match rule(Previous(entries, i), entries[i])
      case Keep => ScanFrom(rule, entries, i + 1, checkOnly, acc)
      case Duplicate =>
        ScanFrom(rule, entries, i + 1, checkOnly, Record(acc, Previous(entries, i).path, checkOnly))
      // the first iteration has no previous entry; Judge never fails there
      case SubstringFails => ArgumentOutOfRange(if i == 0 then 0 else i - 1, acc)
  }

  /** DeleteDuplicateFiles as written, over an enumeration. */
  function Scan(entries: seq<Entry>, checkOnly: bool): ScanResult {
    ScanFrom(Judge, entries, 0, checkOnly, Outcome([], {}))
  }

  /** DeleteDuplicateFiles with the missing " - Copy" case skipped. */
  function ScanCorrected(entries: seq<Entry>, checkOnly: bool): ScanResult {
    ScanFrom(JudgeSkippingUnmatched, entries, 0, checkOnly, Outcome([], {}))
  }
}
