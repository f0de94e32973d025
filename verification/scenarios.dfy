/** Concrete enumerations that show the scanner's behaviour on named files. */
module DuplicateScenarios {
  import opened PathStrings
  import opened Duplicates

  /** A name with no directory separator. */
  predicate NoSeparator(name: string) {
    forall k :: 0 <= k < |name| ==> !IsDirectorySeparator(name[k])
  }

  /** The file name of a directory path followed by a separator-free name is
      that name. */
  lemma {:induction false} FileNameOfJoin(dir: string, name: string)
    requires |dir| > 0 && IsDirectorySeparator(dir[|dir| - 1])
    requires NoSeparator(name)
    ensures FileName(dir + name) == name
  {
    if |name| > 0 {
      var init := name[..|name| - 1];
      assert (dir + name)[..|dir + name| - 1] == dir + init;
      FileNameOfJoin(dir, init);
    } else {
      assert dir + name == dir;
    }
  }

  /** The stem of dir/base.ext, with no '.' in the extension, is base. */
  lemma StemOfJoin(dir: string, base: string, ext: string)
    requires |dir| > 0 && IsDirectorySeparator(dir[|dir| - 1])
    requires NoSeparator(base) && NoSeparator(ext) && '.' !in ext
    ensures FileNameWithoutExtension(dir + base + "." + ext) == base
  {
    var name := base + "." + ext;
    assert dir + base + "." + ext == dir + name;
    FileNameOfJoin(dir, name);
    FileNameWithoutExtensionSpec(dir + name);
    var stem := FileNameWithoutExtension(dir + name);
    assert name[|base|] == '.';
  }

  /** In pre + " - Copy" + rest, with no space in rest, the last " - Copy"
      starts right after pre. */
  lemma LastMarkerAfter(pre: string, rest: string)
    requires ' ' !in rest
    ensures LastIndexOf(pre + CopyMarker + rest, CopyMarker) == |pre|
  {
    var p := pre + CopyMarker + rest;
    LastIndexOfSpec(p, CopyMarker);
    assert OccursAt(p, CopyMarker, |pre|) by {
      assert p[|pre|..|pre| + 7] == CopyMarker;
    }
    forall k | |pre| < k
      ensures !OccursAt(p, CopyMarker, k)
    {
      if k + 7 <= |p| {
        if k == |pre| + 2 {
          assert p[k + 1] == 'C';
          assert p[k..k + 7][1] != CopyMarker[1];
        } else {
          assert p[k] != ' ';
          assert p[k..k + 7][0] != CopyMarker[0];
        }
      }
    }
  }

  /** A name made of characters other than separators, '.' and ' '. */
  predicate PlainExtension(ext: string) {
    forall k :: 0 <= k < |ext| ==> !IsDirectorySeparator(ext[k]) && ext[k] != '.' && ext[k] != ' '
  }

  /** "<dir><base> - Copy.<ext>" is a candidate whose last " - Copy" cuts it
      back to "<dir><base>". */
  lemma CopyNameFacts(dir: string, base: string, ext: string)
    requires |dir| > 0 && IsDirectorySeparator(dir[|dir| - 1])
    requires NoSeparator(base) && PlainExtension(ext)
    ensures var copy := dir + base + CopyMarker + "." + ext;
      && EndsWith(FileNameWithoutExtension(copy), CopySuffix)
      && LastIndexOf(copy, CopyMarker) == |dir + base|
      && copy[..|dir + base|] == dir + base
  {
    var copy := dir + base + CopyMarker + "." + ext;
    var stemBase := base + CopyMarker;
    assert copy == dir + stemBase + "." + ext;
    StemOfJoin(dir, stemBase, ext);
    assert EndsWith(stemBase, CopySuffix) by {
      assert stemBase[|stemBase| - 4..] == CopyMarker[3..];
    }
    assert ' ' !in "." + ext by {
      assert forall k :: 0 <= k < |ext| ==> ("." + ext)[k + 1] == ext[k];
    }
    assert copy == (dir + base) + CopyMarker + ("." + ext);
    LastMarkerAfter(dir + base, "." + ext);
  }

  /** "<base> - Copy.<ext>" judged against the next file "<base>.<ext>" in
      the same directory: a duplicate exactly when the lengths agree. */
  lemma JudgeCopyThenOriginal(dir: string, base: string, ext: string, copyLength: nat, originalLength: nat)
    requires |dir| > 0 && IsDirectorySeparator(dir[|dir| - 1])
    requires NoSeparator(base) && PlainExtension(ext)
    ensures Judge(Entry(dir + base + CopyMarker + "." + ext, copyLength), Entry(dir + base + "." + ext, originalLength))
              == if copyLength == originalLength then Duplicate else Keep
  {
    CopyNameFacts(dir, base, ext);
  }

  /** With "<base> - Copy.<ext>" enumerated right before "<base>.<ext>" and
      equal lengths, the copy is reported once; it is deleted unless the scan
      only checks. */
  lemma CopyThenOriginalIsReported(dir: string, base: string, ext: string, length: nat, checkOnly: bool)
    requires |dir| > 0 && IsDirectorySeparator(dir[|dir| - 1])
    requires NoSeparator(base) && PlainExtension(ext)
    ensures var copy := dir + base + CopyMarker + "." + ext;
      Scan([Entry(copy, length), Entry(dir + base + "." + ext, length)], checkOnly)
        == Finished(Outcome([copy], if checkOnly then {} else {copy}))
  {
    var copy := dir + base + CopyMarker + "." + ext;
    var entries := [Entry(copy, length), Entry(dir + base + "." + ext, length)];
    JudgeCopyThenOriginal(dir, base, ext, length, length);
    var recorded := Record(Outcome([], {}), copy, checkOnly);
    assert ScanFrom(Judge, entries, 1, checkOnly, Outcome([], {})) == ScanFrom(Judge, entries, 2, checkOnly, recorded);
  }

  /** With different lengths nothing is reported. */
  lemma CopyWithOtherLengthIsKept(dir: string, base: string, ext: string, copyLength: nat, originalLength: nat, checkOnly: bool)
    requires |dir| > 0 && IsDirectorySeparator(dir[|dir| - 1])
    requires NoSeparator(base) && PlainExtension(ext)
    requires copyLength != originalLength
    ensures Scan([Entry(dir + base + CopyMarker + "." + ext, copyLength), Entry(dir + base + "." + ext, originalLength)], checkOnly)
              == Finished(Outcome([], {}))
  {
    var entries := [Entry(dir + base + CopyMarker + "." + ext, copyLength), Entry(dir + base + "." + ext, originalLength)];
    JudgeCopyThenOriginal(dir, base, ext, copyLength, originalLength);
    assert ScanFrom(Judge, entries, 1, checkOnly, Outcome([], {})) == ScanFrom(Judge, entries, 2, checkOnly, Outcome([], {}));
  }

  /** A path without a space holds no " - Copy". */
  lemma NoSpaceNoMarker(path: string)
    requires ' ' !in path
    ensures !Contains(path, CopyMarker)
  {
    forall k | 0 <= k <= |path| - |CopyMarker|
      ensures !OccursAt(path, CopyMarker, k)
    {
      assert path[k..k + 7][0] != CopyMarker[0];
    }
  }

  /** "<dir><base>Copy.<ext>", with no space in "<dir><base>" or in the
      extension, holds no space. */
  lemma UnmatchedCopyHasNoSpace(dir: string, base: string, ext: string)
    requires PlainExtension(ext)
    requires ' ' !in dir + base
    ensures ' ' !in dir + base + CopySuffix + "." + ext
  {
    var tail := CopySuffix + "." + ext;
    assert dir + base + CopySuffix + "." + ext == (dir + base) + tail;
    assert forall k :: 0 <= k < |ext| ==> tail[k + 5] == ext[k];
    assert ' ' !in tail;
  }

  /** "<dir><base>Copy.<ext>", with no space in "<dir><base>", is a
      candidate whose path holds no " - Copy". */
  lemma UnmatchedCopyNameFacts(dir: string, base: string, ext: string)
    requires |dir| > 0 && IsDirectorySeparator(dir[|dir| - 1])
    requires NoSeparator(base) && PlainExtension(ext)
    requires ' ' !in dir + base
    ensures var path := dir + base + CopySuffix + "." + ext;
      && EndsWith(FileNameWithoutExtension(path), CopySuffix)
      && LastIndexOf(path, CopyMarker) == -1
  {
    var stemBase := base + CopySuffix;
    var path := dir + stemBase + "." + ext;
    assert path == dir + base + CopySuffix + "." + ext;
    StemOfJoin(dir, stemBase, ext);
    assert EndsWith(stemBase, CopySuffix);
    UnmatchedCopyHasNoSpace(dir, base, ext);
    NoSpaceNoMarker(path);
    LastIndexOfSpec(path, CopyMarker);
  }

  /** A file whose stem ends with "Copy" but whose path has no " - Copy",
      such as "<dir><base>Copy.<ext>", followed by any file makes the scan
      as written throw before anything is reported; the corrected scan passes
      over it. */
  lemma UnmatchedCopyAbortsScan(dir: string, base: string, ext: string, length: nat, next: Entry, checkOnly: bool)
    requires |dir| > 0 && IsDirectorySeparator(dir[|dir| - 1])
    requires NoSeparator(base) && PlainExtension(ext)
    requires ' ' !in dir + base
    ensures var path := dir + base + CopySuffix + "." + ext;
      && Scan([Entry(path, length), next], checkOnly) == ArgumentOutOfRange(0, Outcome([], {}))
      && ScanCorrected([Entry(path, length), next], checkOnly) == Finished(Outcome([], {}))
  {
    UnmatchedCopyNameFacts(dir, base, ext);
    var entries := [Entry(dir + base + CopySuffix + "." + ext, length), next];
    assert Judge(entries[0], entries[1]) == SubstringFails;
    assert ScanFrom(Judge, entries, 0, checkOnly, Outcome([], {})) == ScanFrom(Judge, entries, 1, checkOnly, Outcome([], {}));
    assert ScanFrom(JudgeSkippingUnmatched, entries, 1, checkOnly, Outcome([], {}))
        == ScanFrom(JudgeSkippingUnmatched, entries, 2, checkOnly, Outcome([], {}));
  }

  /** The window is one entry wide: a copy separated from its original by a
      file that does not continue the copy's cut path and is not itself a
      candidate is not reported. */
  lemma InterveningFileHidesCopy(dir: string, base: string, ext: string, length: nat, other: Entry, checkOnly: bool)
    requires |dir| > 0 && IsDirectorySeparator(dir[|dir| - 1])
    requires NoSeparator(base) && PlainExtension(ext)
    requires !StartsWith(other.path, dir + base)
    requires !EndsWith(FileNameWithoutExtension(other.path), CopySuffix)
    ensures Scan([Entry(dir + base + CopyMarker + "." + ext, length), other, Entry(dir + base + "." + ext, length)], checkOnly)
              == Finished(Outcome([], {}))
  {
    CopyNameFacts(dir, base, ext);
    var entries := [Entry(dir + base + CopyMarker + "." + ext, length), other, Entry(dir + base + "." + ext, length)];
    assert Judge(entries[0], entries[1]) == Keep;
    assert Judge(entries[1], entries[2]) == Keep;
    assert ScanFrom(Judge, entries, 1, checkOnly, Outcome([], {})) == ScanFrom(Judge, entries, 2, checkOnly, Outcome([], {}));
    assert ScanFrom(Judge, entries, 2, checkOnly, Outcome([], {})) == ScanFrom(Judge, entries, 3, checkOnly, Outcome([], {}));
  }

  /** A copy, its original, then any other file: the copy is reported and
      nothing else, since the original's stem does not end with "Copy". */
  lemma CopyOriginalThenOtherFile(dir: string, base: string, ext: string, length: nat, other: Entry, checkOnly: bool)
    requires |dir| > 0 && IsDirectorySeparator(dir[|dir| - 1])
    requires NoSeparator(base) && PlainExtension(ext)
    requires !EndsWith(base, CopySuffix)
    ensures var copy := dir + base + CopyMarker + "." + ext;
      Scan([Entry(copy, length), Entry(dir + base + "." + ext, length), other], checkOnly)
        == Finished(Outcome([copy], if checkOnly then {} else {copy}))
  {
    var copy := dir + base + CopyMarker + "." + ext;
    var entries := [Entry(copy, length), Entry(dir + base + "." + ext, length), other];
    JudgeCopyThenOriginal(dir, base, ext, length, length);
    StemOfJoin(dir, base, ext);
    var recorded := Record(Outcome([], {}), copy, checkOnly);
    assert Judge(entries[1], entries[2]) == Keep;
    assert ScanFrom(Judge, entries, 1, checkOnly, Outcome([], {})) == ScanFrom(Judge, entries, 2, checkOnly, recorded);
    assert ScanFrom(Judge, entries, 2, checkOnly, recorded) == ScanFrom(Judge, entries, 3, checkOnly, recorded);
  }

  /** With <base> ending in "Copy" and no space in "<dir><base>", the copy is
      a duplicate of the original, and the original, followed by any file, is
      a candidate without " - Copy". */
  lemma CopyOfCopyNamedVerdicts(dir: string, base: string, ext: string, length: nat, other: Entry)
    requires |dir| > 0 && IsDirectorySeparator(dir[|dir| - 1])
    requires NoSeparator(base) && PlainExtension(ext)
    requires ' ' !in dir + base
    ensures var original := Entry(dir + base + CopySuffix + "." + ext, length);
      && Judge(Entry(dir + base + CopySuffix + CopyMarker + "." + ext, length), original) == Duplicate
      && Judge(original, other) == SubstringFails
  {
    var named := base + CopySuffix;
    assert dir + named + CopyMarker + "." + ext == dir + base + CopySuffix + CopyMarker + "." + ext;
    assert dir + named + "." + ext == dir + base + CopySuffix + "." + ext;
    JudgeCopyThenOriginal(dir, named, ext, length, length);
    UnmatchedCopyNameFacts(dir, base, ext);
  }

  /** When <base> itself ends with "Copy" and "<dir><base>" holds no space,
      the original "<dir><base>.<ext>" is a candidate without " - Copy": the
      copy before it is reported, and the scan then throws on the original. */
  lemma CopyOfCopyNamedOriginalThrows(dir: string, base: string, ext: string, length: nat, other: Entry, checkOnly: bool)
    requires |dir| > 0 && IsDirectorySeparator(dir[|dir| - 1])
    requires NoSeparator(base) && PlainExtension(ext)
    requires ' ' !in dir + base
    ensures var copy := dir + base + CopySuffix + CopyMarker + "." + ext;
      Scan([Entry(copy, length), Entry(dir + base + CopySuffix + "." + ext, length), other], checkOnly)
        == ArgumentOutOfRange(1, Outcome([copy], if checkOnly then {} else {copy}))
  {
    var copy := dir + base + CopySuffix + CopyMarker + "." + ext;
    var entries := [Entry(copy, length), Entry(dir + base + CopySuffix + "." + ext, length), other];
    CopyOfCopyNamedVerdicts(dir, base, ext, length, other);
    var recorded := Record(Outcome([], {}), copy, checkOnly);
    assert ScanFrom(Judge, entries, 1, checkOnly, Outcome([], {})) == ScanFrom(Judge, entries, 2, checkOnly, recorded);
  }

  /** "<dir><base> - Copyright.<ext>" is not a candidate: its stem ends in
      "right". */
  lemma CopyrightIsNoCandidate(dir: string, base: string, ext: string)
    requires |dir| > 0 && IsDirectorySeparator(dir[|dir| - 1])
    requires NoSeparator(base) && PlainExtension(ext)
    ensures !EndsWith(FileNameWithoutExtension(dir + base + " - Copyright." + ext), CopySuffix)
  {
    var named := base + " - Copyright";
    assert dir + named + "." + ext == dir + base + " - Copyright." + ext;
    StemOfJoin(dir, named, ext);
    assert named[|named| - 1] == 't';
  }

  /** The copy followed by "<dir><base> - Copyright.<ext>" of its own length
      is a duplicate, and that file is kept whatever follows it. */
  lemma CopyrightNeighbourVerdicts(dir: string, base: string, ext: string, length: nat, next: Entry)
    requires |dir| > 0 && IsDirectorySeparator(dir[|dir| - 1])
    requires NoSeparator(base) && PlainExtension(ext)
    ensures var neighbour := Entry(dir + base + " - Copyright." + ext, length);
      && Judge(Entry(dir + base + CopyMarker + "." + ext, length), neighbour) == Duplicate
      && Judge(neighbour, next) == Keep
  {
    var copy := dir + base + CopyMarker + "." + ext;
    var neighbour := dir + base + " - Copyright." + ext;
    CopyNameFacts(dir, base, ext);
    assert neighbour == (dir + base) + (" - Copyright." + ext);
    assert StartsWith(neighbour, copy[..|dir + base|]);
    CopyrightIsNoCandidate(dir, base, ext);
  }

  /** The copy is judged against whatever comes next, not against its
      original: "<dir><base> - Copyright.<ext>" of the copy's length, placed
      between the copy and an original of another length, gets the copy
      reported. */
  lemma CopyReportedAgainstNeighbour(dir: string, base: string, ext: string, copyLength: nat, originalLength: nat, checkOnly: bool)
    requires |dir| > 0 && IsDirectorySeparator(dir[|dir| - 1])
    requires NoSeparator(base) && PlainExtension(ext)
    ensures var copy := dir + base + CopyMarker + "." + ext;
      var neighbour := dir + base + " - Copyright." + ext;
      Scan([Entry(copy, copyLength), Entry(neighbour, copyLength), Entry(dir + base + "." + ext, originalLength)], checkOnly)
        == Finished(Outcome([copy], if checkOnly then {} else {copy}))
  {
    var copy := dir + base + CopyMarker + "." + ext;
    var original := Entry(dir + base + "." + ext, originalLength);
    var entries := [Entry(copy, copyLength), Entry(dir + base + " - Copyright." + ext, copyLength), original];
    CopyrightNeighbourVerdicts(dir, base, ext, copyLength, original);
    var recorded := Record(Outcome([], {}), copy, checkOnly);
    assert ScanFrom(Judge, entries, 1, checkOnly, Outcome([], {})) == ScanFrom(Judge, entries, 2, checkOnly, recorded);
    assert ScanFrom(Judge, entries, 2, checkOnly, recorded) == ScanFrom(Judge, entries, 3, checkOnly, recorded);
  }
}
