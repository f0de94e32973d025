/** Ordinal models of the .NET string and path primitives that the duplicate
    scanner relies on: String.StartsWith, String.EndsWith, String.LastIndexOf
    and Path.GetFileNameWithoutExtension. Strings are sequences of Unicode
    scalar values compared one by one; no culture-sensitive comparison is
    modelled.

    The functions carry only the bounds their callers need to index safely;
    what each one means is stated by the lemma that follows it, so that the
    characterisation is brought in only where a proof asks for it. */
module PathStrings {

  /** Ordinal String.StartsWith: `prefix` is an initial segment of `s`. */
  predicate StartsWith(s: string, prefix: string) {
    prefix <= s
  }

  /** Ordinal String.EndsWith: `suffix` is a final segment of `s`. */
  predicate EndsWith(s: string, suffix: string) {
    |suffix| <= |s| && s[|s| - |suffix|..] == suffix
  }

  /** `pat` occurs in `s` starting at index `k`. */
  predicate OccursAt(s: string, pat: string, k: int) {
    0 <= k && k + |pat| <= |s| && s[k..k + |pat|] == pat
  }

  /** `pat` occurs somewhere in `s`. */
  predicate Contains(s: string, pat: string) {
    exists k :: 0 <= k <= |s| - |pat| && OccursAt(s, pat, k)
  }

  /** Ordinal String.LastIndexOf(string): the start of the last occurrence of
      `pat` in `s`, or -1 when there is none. */
  function LastIndexOf(s: string, pat: string): (r: int)
    ensures r == -1 || (0 <= r && r + |pat| <= |s|)
  {
    LastOccurrenceAtOrBefore(s, pat, |s| - |pat|)
  }

  /** The last occurrence of `pat` in `s` that starts at or before `k`. */
  function LastOccurrenceAtOrBefore(s: string, pat: string, k: int): (r: int)
    requires k + |pat| <= |s|
    ensures r == -1 || (0 <= r <= k)
    decreases k + 1
  {
    if k < 0 then -1
    else if s[k..k + |pat|] == pat then k
    else LastOccurrenceAtOrBefore(s, pat, k - 1)
  }

  lemma {:induction false} LastOccurrenceAtOrBeforeSpec(s: string, pat: string, k: int)
    requires k + |pat| <= |s|
    ensures var r := LastOccurrenceAtOrBefore(s, pat, k);
      && (r == -1 || OccursAt(s, pat, r))
      && forall j :: r < j <= k ==> !OccursAt(s, pat, j)
    decreases k + 1
  {
    if 0 <= k && s[k..k + |pat|] != pat {
      LastOccurrenceAtOrBeforeSpec(s, pat, k - 1);
    }
  }

  /** LastIndexOf finds an occurrence exactly when there is one, and no
      occurrence starts after the one it finds. */
  lemma LastIndexOfSpec(s: string, pat: string)
    ensures var r := LastIndexOf(s, pat);
      && (r == -1 || OccursAt(s, pat, r))
      && (r == -1 <==> !Contains(s, pat))
      && forall k :: r < k ==> !OccursAt(s, pat, k)
  {
    LastOccurrenceAtOrBeforeSpec(s, pat, |s| - |pat|);
  }

  /** Ordinal String.LastIndexOf(char). */
  function LastIndexOfChar(s: string, c: char): (r: int)
    ensures -1 <= r < |s|
  {
    if |s| == 0 then -1
    else if s[|s| - 1] == c then |s| - 1
    else LastIndexOfChar(s[..|s| - 1], c)
  }

  lemma {:induction false} LastIndexOfCharSpec(s: string, c: char)
    ensures var r := LastIndexOfChar(s, c);
      && (r >= 0 ==> s[r] == c)
      && forall k :: r < k < |s| ==> s[k] != c
  {
    if |s| > 0 && s[|s| - 1] != c {
      LastIndexOfCharSpec(s[..|s| - 1], c);
    }
  }

  /** Both Windows separators; on Unix only '/' is one. */
  predicate IsDirectorySeparator(c: char) {
    c == '/' || c == '\\'
  }

  /** Path.GetFileName: what follows the last directory separator. */
  function FileName(path: string): (name: string)
    ensures |name| <= |path|
  {
    if |path| == 0 || IsDirectorySeparator(path[|path| - 1]) then ""
    else FileName(path[..|path| - 1]) + [path[|path| - 1]]
  }

  /** The file name is the longest final segment of the path that holds no
      directory separator. */
  lemma {:induction false} FileNameSpec(path: string)
    ensures var name := FileName(path);
      && EndsWith(path, name)
      && (forall k :: 0 <= k < |name| ==> !IsDirectorySeparator(name[k]))
      && (|name| < |path| ==> IsDirectorySeparator(path[|path| - |name| - 1]))
  {
    if |path| > 0 && !IsDirectorySeparator(path[|path| - 1]) {
      var init := path[..|path| - 1];
      FileNameSpec(init);
      var prev := FileName(init);
      var name := FileName(path);
      assert name == prev + [path[|path| - 1]];
      assert path[|path| - |name|..] == init[|init| - |prev|..] + [path[|path| - 1]];
      if |name| < |path| {
        assert path[|path| - |name| - 1] == init[|init| - |prev| - 1];
      }
    }
  }

  /** Path.GetFileNameWithoutExtension: the file name cut before its last
      '.', or the whole file name when it has no '.'. */
  function FileNameWithoutExtension(path: string): (stem: string)
    ensures |stem| <= |path|
  {
    var name := FileName(path);
    var dot := LastIndexOfChar(name, '.');
    if dot < 0 then name else name[..dot]
  }

  /** The stem is an initial segment of the file name; it is all of it
      exactly when the name has no '.', and otherwise stops at the last '.'. */
  lemma FileNameWithoutExtensionSpec(path: string)
    ensures var name, stem := FileName(path), FileNameWithoutExtension(path);
      && stem <= name
      && (stem == name <==> '.' !in name)
      && (|stem| < |name| ==> name[|stem|] == '.' && '.' !in name[|stem| + 1..])
  {
    LastIndexOfCharSpec(FileName(path), '.');
  }
}
