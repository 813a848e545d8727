/** Lexical derivation of the directory a watched file lives in (monitor_add). */
module Paths {

  /** Size of one directory buffer of the registry, terminating NUL included. */
  const DIR_MAXPATH: nat := 128

  /** Both separators are accepted, as on Windows. */
  predicate IsSlash(c: char)
  {
    c == '/' || c == '\\'
  }

  /** The path with one leading "./" or ".\" removed. */
  function StripDot(path: string): string
  {
    if |path| >= 2 && path[0] == '.' && IsSlash(path[1]) then path[2..] else path
  }

  /** The strip leaves a suffix of the path: exactly two characters shorter when it
      opens with a dot and a separator, and the whole path otherwise. */
  lemma StripDotSuffix(path: string)
    ensures var s := StripDot(path);
      |s| <= |path| && s == path[|path| - |s|..]
      && (|s| == |path| - 2 <==> |path| >= 2 && path[0] == '.' && IsSlash(path[1]))
      && (|s| != |path| - 2 ==> s == path)
  {
  }

  /** What monitor_add copies once its scan of s stops at index k (-1 when it ran off
      the start): the text before the separator, its length taken modulo DIR_MAXPATH,
      or "." when that leaves nothing. */
  function Copied(s: string, k: int): (dir: string)
    requires -1 <= k < |s|
    ensures 0 < |dir| < DIR_MAXPATH
    ensures dir == "." || (|dir| <= |s| && dir == s[..|dir|])
  {
    var cnt := if k < 0 then 0 else k % DIR_MAXPATH;
    if cnt == 0 then "." else s[..cnt]
  }

  /** The backward scan of s from index last: it stops at the first separator it meets. */
  function ScanBack(s: string, last: int): (dir: string)
    requires last < |s|
    ensures 0 < |dir| < DIR_MAXPATH
    ensures dir == "." || (|dir| <= |s| && dir == s[..|dir|])
    decreases last + 1
  {
    if last < 0 then Copied(s, -1)
    else if IsSlash(s[last]) then Copied(s, last)
    else ScanBack(s, last - 1)
  }

  /** The scan stops at the rightmost separator at or before last. */
  lemma {:induction false} ScanBackStops(s: string, last: int, k: int)
    requires -1 <= k <= last < |s|
    requires k >= 0 ==> IsSlash(s[k])
    requires forall j :: k < j <= last ==> !IsSlash(s[j])
    ensures ScanBack(s, last) == Copied(s, k)
    decreases last - k
  {
    if last > k {
      ScanBackStops(s, last - 1, k);
    }
  }

  /** The directory monitor_add registers for a file: the scan of the path with its
      "./" removed, started at its final character. */
  function DirectoryOf(path: string): (dir: string)
    ensures 0 < |dir| < DIR_MAXPATH
    ensures dir == "." || (|dir| <= |StripDot(path)| && dir == StripDot(path)[..|dir|])
  {
    ScanBack(StripDot(path), |StripDot(path)| - 1)
  }

  /** A copy into a directory buffer: at most DIR_MAXPATH - 1 characters survive. */
  function Truncate(dir: string): (r: string)
    ensures |r| < DIR_MAXPATH
    ensures |r| <= |dir| && r == dir[..|r|]
    ensures |dir| < DIR_MAXPATH ==> r == dir
  {
    if |dir| < DIR_MAXPATH then dir else dir[..DIR_MAXPATH - 1]
  }

  /** monitor_add's scan: `last` starts at the final character of the unstripped path,
      the "./" prefix is skipped afterwards, and the scan walks back to the start of
      the stripped text. */
  method DeriveDirectory(path: string) returns (dir: string)
    ensures dir == DirectoryOf(path)
  {
    dir := "";
    var last := |path| - 1;
    var start := 0;
    if |path| >= 2 && path[0] == '.' && IsSlash(path[1]) {
      start := 2;
    }
    ghost var s := path[start..];
    assert s == StripDot(path);
    while last >= start
      invariant start - 1 <= last < |path| && dir == ""
      invariant ScanBack(s, last - start) == DirectoryOf(path)
    {
      if IsSlash(path[last]) {
        assert s[last - start] == path[last];
        var cnt := (last - start) % DIR_MAXPATH;
        dir := path[start..start + cnt];
        assert cnt != 0 ==> dir == s[..cnt];
        break;
      }
      assert s[last - start] == path[last];
      last := last - 1;
    }
    if dir == "" {
      dir := ".";
    }
  }

  /** When the directory part is short enough to survive, the directory, the separator
      and the file name put back together give the stripped path. */
  lemma DirectoryOfSplit(path: string, k: int)
    requires var s := StripDot(path); 0 < k < |s| && k < DIR_MAXPATH && IsSlash(s[k])
    requires var s := StripDot(path); forall j :: k < j < |s| ==> !IsSlash(s[j])
    ensures var s := StripDot(path);
      DirectoryOf(path) == s[..k] && s == DirectoryOf(path) + [s[k]] + s[k + 1..]
  {
    var s := StripDot(path);
    ScanBackStops(s, |s| - 1, k);
    assert k % DIR_MAXPATH == k;
    assert s == s[..k] + [s[k]] + s[k + 1..];
  }

  /** A path without a separator, or whose only separator opens it, lives in ".". */
  lemma DirectoryOfCurrent(path: string)
    requires forall j :: 0 < j < |StripDot(path)| ==> !IsSlash(StripDot(path)[j])
    ensures DirectoryOf(path) == "."
  {
    var s := StripDot(path);
    if |s| > 0 && IsSlash(s[0]) {
      ScanBackStops(s, |s| - 1, 0);
    } else {
      ScanBackStops(s, |s| - 1, -1);
    }
  }

  /** The demo driver's files resolve to these directories. */
  lemma DemoStyle()
    ensures DirectoryOf("hss/style.hss") == "hss"
  {
    ScanBackStops("hss/style.hss", 12, 3);
  }

  lemma DemoVars()
    ensures DirectoryOf("hss/subs/_vars.hss") == "hss/subs"
  {
    ScanBackStops("hss/subs/_vars.hss", 17, 8);
  }

  lemma DemoLight()
    ensures DirectoryOf("./hss/light.hss") == "hss"
  {
    assert StripDot("./hss/light.hss") == "hss/light.hss";
    ScanBackStops("hss/light.hss", 12, 3);
  }

  lemma DemoColors()
    ensures DirectoryOf("./hss/subs/colors.hss") == "hss/subs"
  {
    assert StripDot("./hss/subs/colors.hss") == "hss/subs/colors.hss";
    ScanBackStops("hss/subs/colors.hss", 18, 8);
  }

  lemma DemoNoSeparator()
    ensures DirectoryOf("style.hss") == "."
  {
    ScanBackStops("style.hss", 8, -1);
  }

  /** Only one prefix is removed: "././" keeps its second "./". */
  lemma StripDotOnce(name: string)
    ensures StripDot("././" + name) == "./" + name
  {
    assert ("././" + name)[2..] == "./" + name;
  }

  /** Either separator ends the scan: a Windows path resolves like a Unix one. */
  lemma DemoBackslash()
    ensures DirectoryOf("hss\\subs\\x") == "hss\\subs"
    ensures StripDot(".\\x") == StripDot("./x") == "x"
  {
    ScanBackStops("hss\\subs\\x", 9, 8);
  }

  /** The stripped prefix counts for the scan: "./" alone and "/foo" both give ".". */
  lemma StripThenScan()
    ensures DirectoryOf("./") == "."
    ensures DirectoryOf("/foo") == "."
    ensures DirectoryOf(".\\x") == "."
  {
    ScanBackStops("/foo", 3, 0);
  }

  /** The directory length is reduced modulo DIR_MAXPATH, not clamped: a directory
      part of 130 characters keeps only its first two. */
  lemma DirectoryOfWraps(name: string)
    requires forall j :: 0 <= j < |name| ==> !IsSlash(name[j])
    ensures var long := seq(130, _ => 'a');
      DirectoryOf(long + "/" + name) == "aa"
  {
    var long := seq(130, _ => 'a');
    var s := long + "/" + name;
    assert !IsSlash(s[0]);
    ScanBackStops(s, |s| - 1, 130);
    assert 130 % DIR_MAXPATH == 2;
  }
}
