/** What DeleteDuplicateFiles reports, stated entry by entry in terms of file
    names and lengths, and proved of the scan loop of the Duplicates module. */
module DuplicateRules {
  import opened PathStrings
  import opened Duplicates
  import opened ScanReference

  /** The previous file is a candidate: a non-empty path whose stem ends
      with "Copy". */
  predicate Candidate(path: string) {
    path != "" && EndsWith(FileNameWithoutExtension(path), CopySuffix)
  }

  /** Entry `i` is reported as a copy of entry `i + 1`: it is a candidate,
      its path holds " - Copy", entry `i + 1`'s path starts with its path cut
      at the last " - Copy", and the two lengths agree. */
  predicate ReportedAt(entries: seq<Entry>, i: int) {
    && 0 <= i && i + 1 < |entries|
    && Candidate(entries[i].path)
    && Contains(entries[i].path, CopyMarker)
    && (LastIndexOfSpec(entries[i].path, CopyMarker);
        StartsWith(entries[i + 1].path, entries[i].path[..LastIndexOf(entries[i].path, CopyMarker)]))
    && entries[i].length == entries[i + 1].length
  }

  /** Entry `i`, followed by another entry, is a candidate whose path holds
      no " - Copy": Substring(0, -1) throws when it is the previous file. */
  predicate FailsAt(entries: seq<Entry>, i: int) {
    && 0 <= i && i + 1 < |entries|
    && Candidate(entries[i].path)
    && !Contains(entries[i].path, CopyMarker)
  }

  /** For each entry, whether it is reported. */
  function IndexMarks(entries: seq<Entry>): (marks: seq<bool>)
    ensures |marks| == |entries|
  {
    seq(|entries|, i requires 0 <= i < |entries| => ReportedAt(entries, i))
  }

  /** The reported indices below `n`, in increasing order. */
  function ReportedBelow(entries: seq<Entry>, n: nat): seq<nat>
    requires n <= |entries|
  {
    TrueIndices(IndexMarks(entries), n)
  }

  /** The loop's per-pair decision agrees with the index-based rule. */
  lemma JudgeMatchesIndexRule(entries: seq<Entry>, j: nat)
    requires j + 1 < |entries|
    ensures Judge(entries[j], entries[j + 1]) ==
              if FailsAt(entries, j) then SubstringFails
              else if ReportedAt(entries, j) then Duplicate
              else Keep
  {
    LastIndexOfSpec(entries[j].path, CopyMarker);
  }

  /** The first iteration compares against string.Empty and does nothing,
      whatever the first entry is. */
  lemma FirstIterationKeeps(current: Entry)
    ensures Judge(NoPrevious, current) == Keep
    ensures JudgeSkippingUnmatched(NoPrevious, current) == Keep
  {
  }

  /** The marks of one entry, under both rules. */
  lemma MarksAt(entries: seq<Entry>, j: nat)
    requires j < |entries|
    ensures ReportMarks(Judge, entries)[j] == IndexMarks(entries)[j]
    ensures ReportMarks(JudgeSkippingUnmatched, entries)[j] == IndexMarks(entries)[j]
    ensures FailMarks(Judge, entries)[j] <==> FailsAt(entries, j)
    ensures !FailMarks(JudgeSkippingUnmatched, entries)[j]
  {
    if j + 1 < |entries| {
      JudgeMatchesIndexRule(entries, j);
    }
  }

  /** The marks the loop computes are the index-based ones; the corrected
      rule reports the same entries and never fails. */
  lemma MarksMatchIndexRule(entries: seq<Entry>)
    ensures ReportMarks(Judge, entries) == IndexMarks(entries)
    ensures ReportMarks(JudgeSkippingUnmatched, entries) == IndexMarks(entries)
    ensures forall j :: 0 <= j < |entries| ==> (FailMarks(Judge, entries)[j] <==> FailsAt(entries, j))
    ensures forall j :: 0 <= j < |entries| ==> !FailMarks(JudgeSkippingUnmatched, entries)[j]
  {
    forall j | 0 <= j < |entries|
      ensures ReportMarks(Judge, entries)[j] == IndexMarks(entries)[j]
      ensures ReportMarks(JudgeSkippingUnmatched, entries)[j] == IndexMarks(entries)[j]
      ensures FailMarks(Judge, entries)[j] <==> FailsAt(entries, j)
      ensures !FailMarks(JudgeSkippingUnmatched, entries)[j]
    {
      MarksAt(entries, j);
    }
  }

  /** The scan as written is the reference scan of the as-written rule. */
  lemma ScanIsReference(entries: seq<Entry>, checkOnly: bool)
    ensures Scan(entries, checkOnly) == Reference(Judge, entries, checkOnly)
    ensures ScanCorrected(entries, checkOnly) == Reference(JudgeSkippingUnmatched, entries, checkOnly)
  {
    if |entries| > 0 {
      FirstIterationKeeps(entries[0]);
    }
    ScanMatchesReference(Judge, entries, checkOnly);
    ScanMatchesReference(JudgeSkippingUnmatched, entries, checkOnly);
  }

  /** The scan fails exactly when some entry that has a successor is a
      candidate without " - Copy", and then at the first such entry. */
  lemma ScanFailsAtFirstUnmatchedCandidate(entries: seq<Entry>, checkOnly: bool)
    ensures var r := Scan(entries, checkOnly);
      && (r.ArgumentOutOfRange? <==> exists j :: FailsAt(entries, j))
      && (r.ArgumentOutOfRange? ==>
            FailsAt(entries, r.index) && forall j :: 0 <= j < r.index ==> !FailsAt(entries, j))
  {
    ScanIsReference(entries, checkOnly);
    MarksMatchIndexRule(entries);
    if exists j :: FailsAt(entries, j) {
      var j :| FailsAt(entries, j);
      assert FailMarks(Judge, entries)[j];
    }
  }

  /** The reports are the paths of the reported entries before the point
      where the scan stopped, in input order, one per entry; `idx` gives the
      entry behind each report. Every reported entry has a successor, so the
      last entry is never reported. */
  lemma ScanReportsByIndex(entries: seq<Entry>, checkOnly: bool) returns (idx: seq<nat>)
    ensures var r := Scan(entries, checkOnly);
      var stop := if r.Finished? then |entries| else r.index;
      && stop <= |entries|
      && |idx| == |r.outcome.reports|
      && (forall k :: 0 <= k < |idx| ==>
            idx[k] + 1 < |entries| && r.outcome.reports[k] == entries[idx[k]].path)
      && (forall a, b :: 0 <= a < b < |idx| ==> idx[a] < idx[b])
      && (forall i :: i in idx <==> 0 <= i < stop && ReportedAt(entries, i))
  {
    ScanIsReference(entries, checkOnly);
    MarksMatchIndexRule(entries);
    var r := Scan(entries, checkOnly);
    var stop := if r.Finished? then |entries| else r.index;
    EffectsByIndex(IndexMarks(entries), entries, stop, checkOnly);
    idx := ReportedBelow(entries, stop);
  }

  /** In report-only mode nothing is deleted; otherwise exactly the reported
      paths are deleted, and each deleted path is that of an entry. The same
      holds of the effects left behind by a failed scan. */
  lemma ScanDeletesReportedUnlessCheckOnly(entries: seq<Entry>, checkOnly: bool)
    ensures var r := Scan(entries, checkOnly);
      && (checkOnly ==> r.outcome.deleted == {})
      && (!checkOnly ==> r.outcome.deleted == Elements(r.outcome.reports))
      && forall p :: p in r.outcome.deleted ==> exists i :: 0 <= i < |entries| && entries[i].path == p
  {
    ScanIsReference(entries, checkOnly);
    MarksMatchIndexRule(entries);
    var r := Scan(entries, checkOnly);
    var stop := if r.Finished? then |entries| else r.index;
    EffectsByIndex(IndexMarks(entries), entries, stop, checkOnly);
    var idx := ReportedBelow(entries, stop);
    forall p | p in r.outcome.deleted
      ensures exists i :: 0 <= i < |entries| && entries[i].path == p
    {
      var k :| 0 <= k < |r.outcome.reports| && r.outcome.reports[k] == p;
      assert entries[idx[k]].path == p;
    }
  }

  /** With fewer than two entries there is no pair to compare: nothing is
      reported, deleted or thrown. */
  lemma ShortEnumerationDoesNothing(entries: seq<Entry>, checkOnly: bool)
    requires |entries| <= 1
    ensures Scan(entries, checkOnly) == Finished(Outcome([], {}))
  {
    if |entries| == 1 {
      FirstIterationKeeps(entries[0]);
      assert ScanFrom(Judge, entries, 1, checkOnly, Outcome([], {})) == Finished(Outcome([], {}));
    }
  }

  /** The corrected scan always finishes, reporting every reported entry of
      the whole enumeration. */
  lemma CorrectedScanReportsAll(entries: seq<Entry>, checkOnly: bool)
    ensures var paths := PathsAt(entries, ReportedBelow(entries, |entries|));
      ScanCorrected(entries, checkOnly) == Finished(Outcome(paths, if checkOnly then {} else Elements(paths)))
  {
    ScanIsReference(entries, checkOnly);
    MarksMatchIndexRule(entries);
    assert FirstTrue(FailMarks(JudgeSkippingUnmatched, entries), 0) == |entries|;
    EffectsByIndex(IndexMarks(entries), entries, |entries|, checkOnly);
  }

  /** Where the scan as written does not throw, the corrected scan does the
      same thing. */
  lemma CorrectedScanAgreesWhenScanFinishes(entries: seq<Entry>, checkOnly: bool)
    requires Scan(entries, checkOnly).Finished?
    ensures ScanCorrected(entries, checkOnly) == Scan(entries, checkOnly)
  {
    ScanIsReference(entries, checkOnly);
    MarksMatchIndexRule(entries);
    assert FirstTrue(FailMarks(JudgeSkippingUnmatched, entries), 0) == |entries|;
  }
}
