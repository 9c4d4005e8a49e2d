/**
 * The path operations the sync run applies to object keys and local file
 * names, with '/' as the only separator: `string.LastIndexOf`, `Path.GetFileName`, `string.Split('/')`,
 * `Path.GetFileNameWithoutExtension` and `Path.Combine`.
 */
module Paths {

  // ---------------------------------------------------------------- searching

  /** The last position below `n` holding `c`, or -1 when there is none. */
  function LastIndexBelow(s: string, c: char, n: nat): (i: int)
    requires n <= |s|
    ensures -1 <= i < n
    ensures i >= 0 ==> s[i] == c
  {
    if n == 0 then -1
    else if s[n - 1] == c then n - 1
    else LastIndexBelow(s, c, n - 1)
  }

  /** `s.LastIndexOf(c)`: the last position holding `c`, or -1 when there is none. */
  function LastIndexOf(s: string, c: char): (i: int)
    ensures -1 <= i < |s|
    ensures i >= 0 ==> s[i] == c
  {
    LastIndexBelow(s, c, |s|)
  }

  lemma {:induction false} LastIndexBelowIsLast(s: string, c: char, n: nat)
    requires n <= |s|
    ensures forall j :: LastIndexBelow(s, c, n) < j < n ==> s[j] != c
  {
    if n > 0 && s[n - 1] != c {
      LastIndexBelowIsLast(s, c, n - 1);
    }
  }

  /** Nothing after the last occurrence is `c`, and -1 means `c` does not occur. */
  lemma {:induction false} LastIndexOfIsLast(s: string, c: char)
    ensures forall j :: LastIndexOf(s, c) < j < |s| ==> s[j] != c
    ensures LastIndexOf(s, c) < 0 <==> c !in s
  {
    LastIndexBelowIsLast(s, c, |s|);
  }

  lemma {:induction false} LastIndexBelowAt(s: string, c: char, n: nat, i: int)
    requires n <= |s| && 0 <= i < n && s[i] == c
    requires forall j :: i < j < n ==> s[j] != c
    ensures LastIndexBelow(s, c, n) == i
  {
    if n - 1 != i {
      LastIndexBelowAt(s, c, n - 1, i);
    }
  }

  /** The last occurrence is the one with no occurrence after it. */
  lemma {:induction false} LastIndexOfAt(s: string, c: char, i: int)
    requires 0 <= i < |s| && s[i] == c
    requires forall j :: i < j < |s| ==> s[j] != c
    ensures LastIndexOf(s, c) == i
  {
    LastIndexBelowAt(s, c, |s|, i);
  }

  /** The first position from `k` on holding `c`, or -1 when there is none. */
  function IndexFrom(s: string, c: char, k: nat): (i: int)
    requires k <= |s|
    ensures i == -1 || k <= i < |s|
    ensures i >= 0 ==> s[i] == c
    decreases |s| - k
  {
    if k == |s| then -1
    else if s[k] == c then k
    else IndexFrom(s, c, k + 1)
  }

  lemma {:induction false} IndexFromIsFirst(s: string, c: char, k: nat)
    requires k <= |s|
    ensures forall j :: k <= j < |s| && (IndexFrom(s, c, k) < 0 || j < IndexFrom(s, c, k)) ==> s[j] != c
    decreases |s| - k
  {
    if k < |s| && s[k] != c {
      IndexFromIsFirst(s, c, k + 1);
    }
  }

  lemma {:induction false} IndexFromAt(s: string, c: char, k: nat, i: int)
    requires k <= i < |s| && s[i] == c
    requires forall j :: k <= j < i ==> s[j] != c
    ensures IndexFrom(s, c, k) == i
    decreases |s| - k
  {
    if k != i {
      IndexFromAt(s, c, k + 1, i);
    }
  }

  // ---------------------------------------------------------------- file names

  /** `Path.GetFileName`: what follows the last '/'. */
  function FileName(path: string): (name: string)
    ensures |name| <= |path|
  {
    path[LastIndexOf(path, '/') + 1..]
  }

  /**
   * The file name is the longest suffix free of '/': it holds no '/', ends
   * the path, and is either the whole path or preceded by a '/'.
   */
  lemma {:induction false} FileNameIsLastSegment(path: string)
    ensures '/' !in FileName(path)
    ensures |FileName(path)| <= |path| && path[|path| - |FileName(path)|..] == FileName(path)
    ensures |FileName(path)| < |path| ==> path[|path| - |FileName(path)| - 1] == '/'
  {
    LastIndexOfIsLast(path, '/');
  }

  /** A file name is its own file name. */
  lemma {:induction false} FileNameOfFileName(path: string)
    ensures FileName(FileName(path)) == FileName(path)
  {
    var name := FileName(path);
    FileNameIsLastSegment(path);
    LastIndexOfIsLast(name, '/');
    assert name[0..] == name;
  }

  /**
   * The extension-stripping half of `Path.GetFileNameWithoutExtension`: the
   * name up to (not including) its last '.', or the whole name when it has no '.'.
   */
  function StripExtension(name: string): string {
    var dot := LastIndexOf(name, '.');
    if dot < 0 then name else name[..dot]
  }

  /**
   * What stripping removes: nothing from a name without '.', otherwise the
   * last '.' and what follows it, which holds no further '.'.
   */
  lemma {:induction false} StripExtensionRemovesLastExtension(name: string)
    ensures StripExtension(name) <= name
    ensures '.' !in name ==> StripExtension(name) == name
    ensures '.' in name ==> |StripExtension(name)| < |name| && name[|StripExtension(name)|] == '.'
    ensures forall j :: |StripExtension(name)| < j < |name| ==> name[j] != '.'
  {
    LastIndexOfIsLast(name, '.');
  }

  /** `Path.GetFileNameWithoutExtension`: the file name without its last extension. */
  function FileNameWithoutExtension(path: string): string {
    StripExtension(FileName(path))
  }

  /** Where the last extension of `s[lo..hi]` begins: its last '.', or `hi` when it has none. */
  function ExtensionStart(s: string, lo: nat, hi: nat): (e: nat)
    requires lo <= hi <= |s|
    ensures lo <= e <= hi
  {
    var dot := LastIndexBelow(s, '.', hi);
    if dot < lo then hi else dot
  }

  /**
   * `GetFileNameWithoutExtension(GetFileNameWithoutExtension(path))`: the
   * file name with up to two trailing extensions removed, as the sync run
   * turns `2024-01-02.csv.gz` into `2024-01-02`. Read off `path` by
   * position, which keeps proofs that mention a key's stem cheap for the
   * solver; `StemIsDoubleStrip` shows it is the double strip.
   */
  function Stem(path: string): string {
    var start := LastIndexOf(path, '/') + 1;
    path[start..ExtensionStart(path, start, ExtensionStart(path, start, |path|))]
  }

  /** The last `c` of a slice, read off the whole string. */
  lemma {:induction false} LastIndexOfSlice(s: string, c: char, lo: nat, hi: nat)
    requires lo <= hi <= |s|
    ensures LastIndexOf(s[lo..hi], c) ==
              if LastIndexBelow(s, c, hi) >= lo then LastIndexBelow(s, c, hi) - lo else -1
  {
    var t := s[lo..hi];
    var d := LastIndexBelow(s, c, hi);
    LastIndexBelowIsLast(s, c, hi);
    if d >= lo {
      forall j | d - lo < j < |t| ensures t[j] != c {
        assert t[j] == s[lo + j];
      }
      assert t[d - lo] == c;
      LastIndexOfAt(t, c, d - lo);
    } else {
      forall j | 0 <= j < |t| ensures t[j] != c {
        assert t[j] == s[lo + j];
      }
      LastIndexOfIsLast(t, c);
    }
  }

  /** Stripping the extension of a slice ends the slice where its last extension begins. */
  lemma {:induction false} StripExtensionOfSlice(s: string, lo: nat, hi: nat)
    requires lo <= hi <= |s|
    ensures StripExtension(s[lo..hi]) == s[lo..ExtensionStart(s, lo, hi)]
  {
    LastIndexOfSlice(s, '.', lo, hi);
    var t := s[lo..hi];
    var e := ExtensionStart(s, lo, hi);
    assert t[..e - lo] == s[lo..e];
    assert t[..|t|] == t;
  }

  /** A name without '/' is its own file name. */
  lemma {:induction false} FileNameOfPlainName(name: string)
    requires '/' !in name
    ensures FileName(name) == name
  {
    LastIndexOfIsLast(name, '/');
    assert name[0..] == name;
  }

  /** Past the last '/' there is no '/'. */
  lemma {:induction false} NoSlashPastLast(path: string, lo: nat, hi: nat)
    requires LastIndexOf(path, '/') < lo <= hi <= |path|
    ensures '/' !in path[lo..hi]
  {
    LastIndexOfIsLast(path, '/');
    forall j | 0 <= j < hi - lo ensures path[lo..hi][j] != '/' {
      assert path[lo..hi][j] == path[lo + j];
    }
  }

  /** The first strip ends the file name where its last extension begins. */
  lemma {:induction false} FirstStrip(path: string)
    ensures FileNameWithoutExtension(path) ==
              path[LastIndexOf(path, '/') + 1..ExtensionStart(path, LastIndexOf(path, '/') + 1, |path|)]
  {
    var start := LastIndexOf(path, '/') + 1;
    assert path[start..] == path[start..|path|];
    StripExtensionOfSlice(path, start, |path|);
  }

  /** The second strip works on a name without '/', so it only strips. */
  lemma {:induction false} SecondStrip(s: string, lo: nat, hi: nat)
    requires lo <= hi <= |s| && '/' !in s[lo..hi]
    ensures FileNameWithoutExtension(s[lo..hi]) == s[lo..ExtensionStart(s, lo, hi)]
  {
    FileNameOfPlainName(s[lo..hi]);
    StripExtensionOfSlice(s, lo, hi);
  }

  /** The stem is the file name stripped of its extension twice. */
  lemma {:induction false} StemIsDoubleStrip(path: string)
    ensures Stem(path) == FileNameWithoutExtension(FileNameWithoutExtension(path))
  {
    var start := LastIndexOf(path, '/') + 1;
    var e1 := ExtensionStart(path, start, |path|);
    FirstStrip(path);
    NoSlashPastLast(path, start, e1);
    SecondStrip(path, start, e1);
  }

  /** The stem depends on the file name alone, not on the folders before it. */
  lemma {:induction false} StemOfFileName(path: string)
    ensures Stem(FileName(path)) == Stem(path)
  {
    FileNameOfFileName(path);
    StemIsDoubleStrip(path);
    StemIsDoubleStrip(FileName(path));
  }

  // ---------------------------------------------------------------- split and join

  /** LINQ's `Last()`: the final element of a non-empty sequence. */
  function Last<T>(xs: seq<T>): T
    requires |xs| >= 1
  {
    xs[|xs| - 1]
  }

  /** The parts of `s[k..]` split at every `sep`, empty runs included, in order. */
  function SplitFrom(s: string, sep: char, k: nat): (parts: seq<string>)
    requires k <= |s|
    ensures |parts| >= 1
    decreases |s| - k
  {
    var i := IndexFrom(s, sep, k);
    if i < 0 then [s[k..]] else [s[k..i]] + SplitFrom(s, sep, i + 1)
  }

  /** `s.Split(sep)`: every maximal run between separators, empty runs included, in order. */
  function Split(s: string, sep: char): (parts: seq<string>)
    ensures |parts| >= 1
  {
    SplitFrom(s, sep, 0)
  }

  lemma {:induction false} ConsLacks(first: string, rest: seq<string>, sep: char)
    requires sep !in first
    requires forall m :: 0 <= m < |rest| ==> sep !in rest[m]
    ensures forall m :: 0 <= m < |[first] + rest| ==> sep !in ([first] + rest)[m]
  {
    var parts := [first] + rest;
    forall m | 0 <= m < |parts| ensures sep !in parts[m] {
      if m > 0 {
        assert parts[m] == rest[m - 1];
      }
    }
  }

  /** Past the first separator from `k`, the parts are the run before it followed by the parts after it. */
  lemma {:induction false} SplitFromStep(s: string, sep: char, k: nat)
    requires k <= |s| && IndexFrom(s, sep, k) >= 0
    ensures SplitFrom(s, sep, k) == [s[k..IndexFrom(s, sep, k)]] + SplitFrom(s, sep, IndexFrom(s, sep, k) + 1)
  {
  }

  lemma {:induction false} LastOfCons<T>(first: T, rest: seq<T>)
    requires |rest| >= 1
    ensures Last([first] + rest) == Last(rest)
  {
  }

  lemma {:induction false} ConsOfTail<T>(xs: seq<T>)
    requires |xs| >= 1
    ensures xs == [xs[0]] + xs[1..]
  {
  }

  lemma {:induction false} TailLacks(parts: seq<string>, sep: char)
    requires |parts| >= 1
    requires forall m :: 0 <= m < |parts| ==> sep !in parts[m]
    ensures forall m :: 0 <= m < |parts[1..]| ==> sep !in parts[1..][m]
  {
    forall m | 0 <= m < |parts[1..]| ensures sep !in parts[1..][m] {
      assert parts[1..][m] == parts[m + 1];
    }
  }

  /** A run of `s` with no `c` at any of its positions does not contain `c`. */
  lemma {:induction false} RunLacks(s: string, c: char, k: nat, i: nat)
    requires k <= i <= |s|
    requires forall j :: k <= j < i ==> s[j] != c
    ensures c !in s[k..i]
  {
    var run := s[k..i];
    forall m | 0 <= m < |run| ensures run[m] != c {
      assert run[m] == s[k + m];
    }
  }

  lemma {:induction false} SplitFromPartsLackSeparator(s: string, sep: char, k: nat)
    requires k <= |s|
    ensures forall m :: 0 <= m < |SplitFrom(s, sep, k)| ==> sep !in SplitFrom(s, sep, k)[m]
    decreases |s| - k
  {
    var i := IndexFrom(s, sep, k);
    IndexFromIsFirst(s, sep, k);
    if i < 0 {
      RunLacks(s, sep, k, |s|);
      assert s[k..|s|] == s[k..];
    } else {
      var rest := SplitFrom(s, sep, i + 1);
      SplitFromPartsLackSeparator(s, sep, i + 1);
      RunLacks(s, sep, k, i);
      ConsLacks(s[k..i], rest, sep);
      assert SplitFrom(s, sep, k) == [s[k..i]] + rest;
    }
  }

  /** No part holds the separator. */
  lemma {:induction false} SplitPartsLackSeparator(s: string, sep: char)
    ensures forall m :: 0 <= m < |Split(s, sep)| ==> sep !in Split(s, sep)[m]
  {
    SplitFromPartsLackSeparator(s, sep, 0);
    assert Split(s, sep) == SplitFrom(s, sep, 0);
  }

  /** `string.Join(sep, parts)`. */
  function Join(parts: seq<string>, sep: char): string
    requires |parts| >= 1
  {
    if |parts| == 1 then parts[0]
    else parts[0] + [sep] + Join(parts[1..], sep)
  }

  lemma {:induction false} JoinCons(first: string, rest: seq<string>, sep: char)
    requires |rest| >= 1
    ensures Join([first] + rest, sep) == first + [sep] + Join(rest, sep)
  {
    assert ([first] + rest)[1..] == rest;
  }

  lemma {:induction false} Around(s: string, k: nat, i: nat)
    requires k <= i < |s|
    ensures s[k..] == s[k..i] + [s[i]] + s[i + 1..]
  {
  }

  lemma {:induction false} JoinSplitFrom(s: string, sep: char, k: nat)
    requires k <= |s|
    ensures Join(SplitFrom(s, sep, k), sep) == s[k..]
    decreases |s| - k
  {
    var i := IndexFrom(s, sep, k);
    if i >= 0 {
      JoinSplitFrom(s, sep, i + 1);
      JoinCons(s[k..i], SplitFrom(s, sep, i + 1), sep);
      Around(s, k, i);
    }
  }

  /** Splitting loses nothing: joining the parts again gives the input. */
  lemma {:induction false} JoinSplit(s: string, sep: char)
    ensures Join(Split(s, sep), sep) == s
  {
    JoinSplitFrom(s, sep, 0);
    assert s[0..] == s;
  }

  /** A string whose tail from `k` is `first + [sep] + rest`, with `sep` not in `first`. */
  lemma {:induction false} FirstSeparatorAt(t: string, sep: char, k: nat, first: string, rest: string)
    requires k <= |t| && t[k..] == first + [sep] + rest && sep !in first
    ensures IndexFrom(t, sep, k) == k + |first|
    ensures t[k..k + |first|] == first && t[k + |first| + 1..] == rest
  {
    var tail := t[k..];
    forall j | k <= j < k + |first| ensures t[j] != sep {
      assert t[j] == tail[j - k] == first[j - k];
    }
    assert t[k + |first|] == tail[|first|] == sep;
    IndexFromAt(t, sep, k, k + |first|);
    assert t[k..k + |first|] == tail[..|first|];
    assert t[k + |first| + 1..] == tail[|first| + 1..];
  }

  /** A tail from `k` free of `sep` has no separator from `k` on. */
  lemma {:induction false} NoSeparatorFrom(t: string, sep: char, k: nat)
    requires k <= |t| && sep !in t[k..]
    ensures forall j :: k <= j < |t| ==> t[j] != sep
  {
    forall j | k <= j < |t| ensures t[j] != sep {
      assert t[j] == t[k..][j - k];
    }
  }

  lemma {:induction false} SplitFromJoin(t: string, sep: char, k: nat, parts: seq<string>)
    requires |parts| >= 1
    requires forall m :: 0 <= m < |parts| ==> sep !in parts[m]
    requires k <= |t| && t[k..] == Join(parts, sep)
    ensures SplitFrom(t, sep, k) == parts
    decreases |parts|
  {
    var first := parts[0];
    if |parts| == 1 {
      NoSeparatorFrom(t, sep, k);
    } else {
      var tail := parts[1..];
      FirstSeparatorAt(t, sep, k, first, Join(tail, sep));
      TailLacks(parts, sep);
      SplitFromJoin(t, sep, k + |first| + 1, tail);
      SplitFromStep(t, sep, k);
      ConsOfTail(parts);
    }
  }

  /** Splitting undoes joining separator-free parts. */
  lemma {:induction false} SplitJoin(parts: seq<string>, sep: char)
    requires |parts| >= 1
    requires forall m :: 0 <= m < |parts| ==> sep !in parts[m]
    ensures Split(Join(parts, sep), sep) == parts
  {
    var t := Join(parts, sep);
    assert t[0..] == t;
    SplitFromJoin(t, sep, 0, parts);
  }

  /** With `k` at the start or just past a '/', the last part of `s[k..]` is the file name of `s`. */
  lemma {:induction false} LastPartFrom(s: string, k: nat)
    requires k <= |s| && (k == 0 || s[k - 1] == '/')
    ensures Last(SplitFrom(s, '/', k)) == FileName(s)
    decreases |s| - k
  {
    var i := IndexFrom(s, '/', k);
    if i < 0 {
      LastPartWithoutSeparator(s, k);
    } else {
      LastPartFrom(s, i + 1);
      LastPartPastSeparator(s, '/', k);
    }
  }

  lemma {:induction false} LastPartWithoutSeparator(s: string, k: nat)
    requires k <= |s| && (k == 0 || s[k - 1] == '/')
    requires IndexFrom(s, '/', k) < 0
    ensures Last(SplitFrom(s, '/', k)) == FileName(s)
  {
    IndexFromIsFirst(s, '/', k);
    if k == 0 {
      LastIndexOfIsLast(s, '/');
      assert LastIndexOf(s, '/') == -1;
    } else {
      LastIndexOfAt(s, '/', k - 1);
    }
    assert LastIndexOf(s, '/') + 1 == k;
    assert SplitFrom(s, '/', k) == [s[k..]];
  }

  lemma {:induction false} LastPartPastSeparator(s: string, sep: char, k: nat)
    requires k <= |s| && IndexFrom(s, sep, k) >= 0
    ensures Last(SplitFrom(s, sep, k)) == Last(SplitFrom(s, sep, IndexFrom(s, sep, k) + 1))
  {
    var i := IndexFrom(s, sep, k);
    SplitFromStep(s, sep, k);
    LastOfCons(s[k..i], SplitFrom(s, sep, i + 1));
  }

  /** The last part of `key.Split('/')` is the key's file name. */
  lemma {:induction false} LastSegmentIsFileName(s: string)
    ensures Last(Split(s, '/')) == FileName(s)
  {
    LastPartFrom(s, 0);
  }

  // ---------------------------------------------------------------- combining

  /**
   * `Path.Combine(first, second)`: `second` alone when `first` is empty or
   * `second` is rooted, `first` alone when `second` is empty, otherwise the
   * two joined by exactly one '/' unless `first` already ends in one.
   */
  function Combine(first: string, second: string): string {
    if second == [] then first
    else if first == [] then second
    else if second[0] == '/' then second
    else if first[|first| - 1] == '/' then first + second
    else first + "/" + second
  }

  /** A non-empty file name placed in a directory keeps its name. */
  lemma {:induction false} CombineKeepsFileName(dir: string, name: string)
    requires name != [] && '/' !in name
    ensures FileName(Combine(dir, name)) == name
  {
    var path := Combine(dir, name);
    var i := |path| - |name| - 1;
    assert path[i + 1..] == name;
    if i < 0 {
      LastIndexOfIsLast(path, '/');
    } else {
      assert path[i] == '/';
      forall j | i < j < |path| ensures path[j] != '/' {
        assert path[j] == name[j - i - 1];
      }
      LastIndexOfAt(path, '/', i);
    }
  }

  // ---------------------------------------------------------------- stems

  /** Stripping twice leaves a name with no '.' as it is. */
  lemma {:induction false} DoubleStripWithoutDot(path: string)
    requires '.' !in FileName(path)
    ensures FileNameWithoutExtension(FileNameWithoutExtension(path)) == FileName(path)
  {
    var once := FileNameWithoutExtension(path);
    LastIndexOfIsLast(FileName(path), '.');
    FileNameIsLastSegment(path);
    assert once == FileName(path);
    FileNameOfSuffix([], once);
    assert [] + once == once;
  }

  /** A name with no '.' has no extension to strip. */
  lemma {:induction false} StemWithoutDot(path: string)
    requires '.' !in FileName(path)
    ensures Stem(path) == FileName(path)
  {
    StemIsDoubleStrip(path);
    DoubleStripWithoutDot(path);
  }

  /** The file name of `dir + name` is `name` when `dir` ends at a separator. */
  lemma {:induction false} FileNameOfSuffix(dir: string, name: string)
    requires dir == [] || dir[|dir| - 1] == '/'
    requires '/' !in name
    ensures FileName(dir + name) == name
  {
    var path := dir + name;
    forall j | |dir| <= j < |path| ensures path[j] != '/' {
      assert path[j] == name[j - |dir|];
    }
    if dir != [] {
      LastIndexOfAt(path, '/', |dir| - 1);
    } else {
      assert path == name;
      LastIndexOfIsLast(path, '/');
    }
    assert path[|dir|..] == name;
  }

  /** Stripping the extension of `base.ext` gives `base`. */
  lemma {:induction false} StripOneExtension(base: string, ext: string)
    requires '.' !in ext
    ensures StripExtension(base + "." + ext) == base
  {
    var name := base + "." + ext;
    forall j | |base| < j < |name| ensures name[j] != '.' {
      assert name[j] == ext[j - |base| - 1];
    }
    LastIndexOfAt(name, '.', |base|);
    assert name[..|base|] == base;
  }

  /** Stripping twice takes one extension, and no more when the base has no '.'. */
  lemma {:induction false} DoubleStripOfSingleExtension(dir: string, base: string, ext: string)
    requires dir == [] || dir[|dir| - 1] == '/'
    requires '/' !in base && '/' !in ext && '.' !in base && '.' !in ext
    ensures FileNameWithoutExtension(FileNameWithoutExtension(dir + base + "." + ext)) == base
  {
    var name := base + "." + ext;
    assert dir + base + "." + ext == dir + name;
    assert '/' !in name;
    FileNameOfSuffix(dir, name);
    StripOneExtension(base, ext);
    assert FileNameWithoutExtension(dir + name) == base;
    FileNameOfSuffix([], base);
    assert [] + base == base;
    LastIndexOfIsLast(base, '.');
  }

  /** Stripping twice takes exactly two extensions. */
  lemma {:induction false} DoubleStripOfDoubleExtension(dir: string, base: string, ext1: string, ext2: string)
    requires dir == [] || dir[|dir| - 1] == '/'
    requires '/' !in base && '/' !in ext1 && '/' !in ext2 && '.' !in ext1 && '.' !in ext2
    ensures FileNameWithoutExtension(FileNameWithoutExtension(dir + base + "." + ext1 + "." + ext2)) == base
  {
    var once := base + "." + ext1;
    var name := once + "." + ext2;
    assert dir + base + "." + ext1 + "." + ext2 == dir + name;
    assert '/' !in once;
    assert '/' !in name;
    FileNameOfSuffix(dir, name);
    StripOneExtension(once, ext2);
    assert FileNameWithoutExtension(dir + name) == once;
    FileNameOfSuffix([], once);
    assert [] + once == once;
    StripOneExtension(base, ext1);
  }

  /** A name with one extension loses it, and no more when the base has no '.'. */
  lemma {:induction false} StemOfSingleExtension(dir: string, base: string, ext: string)
    requires dir == [] || dir[|dir| - 1] == '/'
    requires '/' !in base && '/' !in ext && '.' !in base && '.' !in ext
    ensures Stem(dir + base + "." + ext) == base
  {
    StemIsDoubleStrip(dir + base + "." + ext);
    DoubleStripOfSingleExtension(dir, base, ext);
  }

  /** A name with two extensions loses exactly those two: `2024-01-02.csv.gz` becomes `2024-01-02`. */
  lemma {:induction false} StemOfDoubleExtension(dir: string, base: string, ext1: string, ext2: string)
    requires dir == [] || dir[|dir| - 1] == '/'
    requires '/' !in base && '/' !in ext1 && '/' !in ext2 && '.' !in ext1 && '.' !in ext2
    ensures Stem(dir + base + "." + ext1 + "." + ext2) == base
  {
    StemIsDoubleStrip(dir + base + "." + ext1 + "." + ext2);
    DoubleStripOfDoubleExtension(dir, base, ext1, ext2);
  }

  /** A dated remote key loses its folder and both extensions. */
  lemma StemOfDatedKey()
    ensures Stem("data/2024-01-02.csv.gz") == "2024-01-02"
  {
    var key := "data/2024-01-02.csv.gz";
    assert key == "data/" + "2024-01-02" + "." + "csv" + "." + "gz";
    StemOfDoubleExtension("data/", "2024-01-02", "csv", "gz");
  }

  /** A key with a single extension loses only that one. */
  lemma StemOfNotesKey()
    ensures Stem("data/notes.txt") == "notes"
  {
    var key := "data/notes.txt";
    assert key == "data/" + "notes" + "." + "txt";
    StemOfSingleExtension("data/", "notes", "txt");
  }
}
