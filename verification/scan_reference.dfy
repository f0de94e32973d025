/** A description of the scan loop by entry index, for any per-pair rule:
    entry `j` is reported when the rule calls (entry j, entry j + 1) a
    duplicate, and the scan stops at the first `j` for which the rule fails. */
module ScanReference {
  import opened Duplicates

  /** For each entry, whether the rule reports it as a copy of the next one. */
  function ReportMarks(rule: (Entry, Entry) -> Verdict, entries: seq<Entry>): (marks: seq<bool>)
    ensures |marks| == |entries|
  {
    seq(|entries|, j requires 0 <= j < |entries| =>
      j + 1 < |entries| && rule(entries[j], entries[j + 1]) == Duplicate)
  }

  /** For each entry, whether the rule fails with it as the previous file. */
  function FailMarks(rule: (Entry, Entry) -> Verdict, entries: seq<Entry>): (marks: seq<bool>)
    ensures |marks| == |entries|
  {
    seq(|entries|, j requires 0 <= j < |entries| =>
      j + 1 < |entries| && rule(entries[j], entries[j + 1]) == SubstringFails)
  }

  /** The indices below `n` whose mark is set, in increasing order. */
  function TrueIndices(marks: seq<bool>, n: nat): (idx: seq<nat>)
    requires n <= |marks|
    ensures forall k :: 0 <= k < |idx| ==> idx[k] < n && marks[idx[k]]
    ensures forall i :: 0 <= i < n && marks[i] ==> i in idx
    ensures forall a, b :: 0 <= a < b < |idx| ==> idx[a] < idx[b]
  {
    if n == 0 then []
    else TrueIndices(marks, n - 1) + (if marks[n - 1] then [n - 1] else [])
  }

  /** The least index at or after `from` whose mark is set, or |marks|. */
  function FirstTrue(marks: seq<bool>, from: nat): (k: nat)
    requires from <= |marks|
    ensures from <= k <= |marks|
    ensures k < |marks| ==> marks[k]
    ensures forall j :: from <= j < k ==> !marks[j]
    decreases |marks| - from
  {
    if from == |marks| || marks[from] then from
    else FirstTrue(marks, from + 1)
  }

  /** The paths of the entries at `idx`. */
  function PathsAt(entries: seq<Entry>, idx: seq<nat>): seq<string>
    requires forall k :: 0 <= k < |idx| ==> idx[k] < |entries|
  {
    seq(|idx|, k requires 0 <= k < |idx| => entries[idx[k]].path)
  }

  /** The distinct members of a sequence of paths. */
  function Elements(s: seq<string>): set<string> {
    set p | p in s
  }

  /** The effects of judging entries 0 .. n-1 as previous files. */
  function Effects(marks: seq<bool>, entries: seq<Entry>, n: nat, checkOnly: bool): Outcome
    requires n <= |marks| == |entries|
  {
    if n == 0 then Outcome([], {})
    else
      var before := Effects(marks, entries, n - 1, checkOnly);
      if marks[n - 1] then Record(before, entries[n - 1].path, checkOnly) else before
  }

  /** What a scan with `rule` should produce: stop at the first failing entry
      with the effects of the entries before it, or finish with all of them. */
  function Reference(rule: (Entry, Entry) -> Verdict, entries: seq<Entry>, checkOnly: bool): ScanResult {
    var marks := ReportMarks(rule, entries);
    var k := FirstTrue(FailMarks(rule, entries), 0);
    if k < |entries| then ArgumentOutOfRange(k, Effects(marks, entries, k, checkOnly))
    else Finished(Effects(marks, entries, |entries|, checkOnly))
  }

  /** How many previous entries have been judged when entry `i` is current. */
  function Judged(i: nat): nat {
    if i == 0 then 0 else i - 1
  }

  /** Appending one index to an index sequence appends its path. */
  lemma PathsAtSnoc(entries: seq<Entry>, idx: seq<nat>, j: nat)
    requires forall k :: 0 <= k < |idx| ==> idx[k] < |entries|
    requires j < |entries|
    ensures PathsAt(entries, idx + [j]) == PathsAt(entries, idx) + [entries[j].path]
  {
    var lhs, rhs := PathsAt(entries, idx + [j]), PathsAt(entries, idx) + [entries[j].path];
    assert |lhs| == |rhs|;
    forall k | 0 <= k < |lhs|
      ensures lhs[k] == rhs[k]
    {
      if k < |idx| {
        assert (idx + [j])[k] == idx[k];
      }
    }
  }

  /** Reporting the next index appends its path, and its deletion unless
      `checkOnly`. */
  lemma RecordByIndex(marks: seq<bool>, entries: seq<Entry>, n: nat, checkOnly: bool)
    requires n < |marks| == |entries| && marks[n]
    ensures var before, after := PathsAt(entries, TrueIndices(marks, n)), PathsAt(entries, TrueIndices(marks, n + 1));
      Record(Outcome(before, if checkOnly then {} else Elements(before)), entries[n].path, checkOnly)
        == Outcome(after, if checkOnly then {} else Elements(after))
  {
    var idx := TrueIndices(marks, n);
    var p := entries[n].path;
    assert TrueIndices(marks, n + 1) == idx + [n];
    PathsAtSnoc(entries, idx, n);
    var paths := PathsAt(entries, idx);
    assert Elements(paths + [p]) == Elements(paths) + {p};
  }

  /** The effects of the reported entries below `n` are exactly: their paths,
      in index order, reported; and deleted unless `checkOnly`. */
  lemma {:induction false} EffectsByIndex(marks: seq<bool>, entries: seq<Entry>, n: nat, checkOnly: bool)
    requires n <= |marks| == |entries|
    ensures var paths := PathsAt(entries, TrueIndices(marks, n));
      Effects(marks, entries, n, checkOnly) == Outcome(paths, if checkOnly then {} else Elements(paths))
  {
    if n > 0 {
      EffectsByIndex(marks, entries, n - 1, checkOnly);
      if marks[n - 1] {
        RecordByIndex(marks, entries, n - 1, checkOnly);
      } else {
        assert TrueIndices(marks, n) == TrueIndices(marks, n - 1);
      }
    }
  }

  /** The first iteration, whose previous file is string.Empty, does nothing
      when the rule keeps that pair. */
  lemma LoopStart(rule: (Entry, Entry) -> Verdict, entries: seq<Entry>, checkOnly: bool, acc: Outcome)
    requires 0 < |entries| && rule(NoPrevious, entries[0]) == Keep
    ensures ScanFrom(rule, entries, 0, checkOnly, acc) == ScanFrom(rule, entries, 1, checkOnly, acc)
  {
  }

  /** An iteration with entry `i - 1` as the previous file, through the marks. */
  lemma LoopStep(rule: (Entry, Entry) -> Verdict, entries: seq<Entry>, i: nat, checkOnly: bool, acc: Outcome)
    requires 0 < i < |entries|
    ensures var marks, fails := ReportMarks(rule, entries), FailMarks(rule, entries);
      ScanFrom(rule, entries, i, checkOnly, acc) ==
        if fails[i - 1] then ArgumentOutOfRange(i - 1, acc)
        else ScanFrom(rule, entries, i + 1, checkOnly,
                      if marks[i - 1] then Record(acc, entries[i - 1].path, checkOnly) else acc)
  {
    assert Previous(entries, i) == entries[i - 1];
  }

  /** Reference when the first failure is entry `k`. */
  lemma ReferenceFails(rule: (Entry, Entry) -> Verdict, entries: seq<Entry>, checkOnly: bool, k: nat)
    requires k < |entries| && FailMarks(rule, entries)[k]
    requires forall j :: 0 <= j < k ==> !FailMarks(rule, entries)[j]
    ensures Reference(rule, entries, checkOnly) ==
              ArgumentOutOfRange(k, Effects(ReportMarks(rule, entries), entries, k, checkOnly))
  {
    assert FirstTrue(FailMarks(rule, entries), 0) == k;
  }

  /** Reference when no entry fails. */
  lemma ReferenceFinishes(rule: (Entry, Entry) -> Verdict, entries: seq<Entry>, checkOnly: bool)
    requires forall j :: 0 <= j < |entries| ==> !FailMarks(rule, entries)[j]
    ensures Reference(rule, entries, checkOnly) ==
              Finished(Effects(ReportMarks(rule, entries), entries, |entries|, checkOnly))
  {
    assert FirstTrue(FailMarks(rule, entries), 0) == |entries|;
  }

  /** The loop after the last entry ends in the reference result. */
  lemma LoopEnd(rule: (Entry, Entry) -> Verdict, entries: seq<Entry>, checkOnly: bool, acc: Outcome)
    requires acc == Effects(ReportMarks(rule, entries), entries, Judged(|entries|), checkOnly)
    requires forall j :: 0 <= j < Judged(|entries|) ==> !FailMarks(rule, entries)[j]
    ensures ScanFrom(rule, entries, |entries|, checkOnly, acc) == Reference(rule, entries, checkOnly)
  {
    var n := |entries|;
    if n > 0 {
      var marks, fails := ReportMarks(rule, entries), FailMarks(rule, entries);
      assert !marks[n - 1] && !fails[n - 1];
      assert acc == Effects(marks, entries, n, checkOnly);
    }
    ReferenceFinishes(rule, entries, checkOnly);
  }

  /** After an iteration that does not fail, the invariant of the loop holds
      one entry further on. */
  lemma InvariantAdvances(rule: (Entry, Entry) -> Verdict, entries: seq<Entry>, i: nat, checkOnly: bool, acc: Outcome)
    requires 0 < i < |entries|
    requires acc == Effects(ReportMarks(rule, entries), entries, Judged(i), checkOnly)
    requires forall j :: 0 <= j < Judged(i) ==> !FailMarks(rule, entries)[j]
    requires !FailMarks(rule, entries)[i - 1]
    ensures var marks := ReportMarks(rule, entries);
      var next := if marks[i - 1] then Record(acc, entries[i - 1].path, checkOnly) else acc;
      && next == Effects(marks, entries, Judged(i + 1), checkOnly)
      && forall j :: 0 <= j < Judged(i + 1) ==> !FailMarks(rule, entries)[j]
  {
  }

  /** The loop from entry `i` on, started with the effects of the entries
      judged so far and no failure among them, ends in the reference result. */
  lemma {:induction false} ScanFromMatchesReference(
    rule: (Entry, Entry) -> Verdict, entries: seq<Entry>, i: nat, checkOnly: bool, acc: Outcome)
    requires i <= |entries|
    requires 0 < |entries| ==> rule(NoPrevious, entries[0]) == Keep
    requires acc == Effects(ReportMarks(rule, entries), entries, Judged(i), checkOnly)
    requires forall j :: 0 <= j < Judged(i) ==> !FailMarks(rule, entries)[j]
    ensures ScanFrom(rule, entries, i, checkOnly, acc) == Reference(rule, entries, checkOnly)
    decreases |entries| - i
  {
    if i == |entries| {
      LoopEnd(rule, entries, checkOnly, acc);
    } else if i == 0 {
      LoopStart(rule, entries, checkOnly, acc);
      ScanFromMatchesReference(rule, entries, 1, checkOnly, acc);
    } else {
      var marks, fails := ReportMarks(rule, entries), FailMarks(rule, entries);
      LoopStep(rule, entries, i, checkOnly, acc);
      if fails[i - 1] {
        ReferenceFails(rule, entries, checkOnly, i - 1);
      } else {
        var next := if marks[i - 1] then Record(acc, entries[i - 1].path, checkOnly) else acc;
        InvariantAdvances(rule, entries, i, checkOnly, acc);
        ScanFromMatchesReference(rule, entries, i + 1, checkOnly, next);
      }
    }
  }

  /** A scan with `rule` from the first entry equals the reference. */
  lemma ScanMatchesReference(rule: (Entry, Entry) -> Verdict, entries: seq<Entry>, checkOnly: bool)
    requires 0 < |entries| ==> rule(NoPrevious, entries[0]) == Keep
    ensures ScanFrom(rule, entries, 0, checkOnly, Outcome([], {})) == Reference(rule, entries, checkOnly)
  {
    ScanFromMatchesReference(rule, entries, 0, checkOnly, Outcome([], {}));
  }
}
