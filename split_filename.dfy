/** Model of `ias_misc_split_filename` (l4-7_cfmask/src/ias_misc_split_filename.c):
    split a path into its directory (through the last '/'), the root of the
    base name (up to its first '.') and the extension (after that '.'). */
module SplitFilename {

  /** PATH_MAX from <limits.h>: the size of the local copy of the name. */
  const PathMax: nat := 4096

  /** What a base name (no '/') and its root and extension must satisfy:
      the root runs up to the first '.', the extension follows it, and a
      name without a '.' has an empty extension. */
  predicate IsBaseSplit(base: seq<char>, root: seq<char>, extension: seq<char>) {
    && '/' !in base && '.' !in root
    && (if '.' in base then base == root + ['.'] + extension else base == root && extension == [])
  }

  /** What the three outputs of a split must satisfy: the directory is a
      prefix of the name that is empty or ends in a '/', no '/' follows it,
      and the rest of the name splits into root and extension. */
  predicate IsSplit(filename: seq<char>, directory: seq<char>, root: seq<char>, extension: seq<char>) {
    && |directory| <= |filename| && filename[..|directory|] == directory
    && (directory == [] || directory[|directory| - 1] == '/')
    && IsBaseSplit(filename[|directory|..], root, extension)
  }

  /** The pieces of a split spell the name again and hold no '/' outside
      the directory. */
  lemma SplitSpellsName(f: seq<char>, d: seq<char>, r: seq<char>, e: seq<char>)
    requires IsSplit(f, d, r, e)
    ensures f == d + r + ['.'] + e || (f == d + r && e == [])
    ensures '/' !in r && '/' !in e
  {
    var b := f[|d|..];
    assert f == d + b;
    if '.' in b {
      assert d + b == d + r + ['.'] + e;
      assert forall x :: x in r || x in e ==> x in b;
    } else {
      assert forall x :: x in r ==> x in b;
    }
  }

  /** `strrchr`: the index of the last `c` in `s`, or -1. */
  method LastIndexOf(s: seq<char>, c: char) returns (i: int)
    ensures -1 <= i < |s|
    ensures i == -1 ==> c !in s
    ensures i >= 0 ==> s[i] == c && c !in s[i + 1..]
  {
    i := -1;
    for k := 0 to |s|
      invariant -1 <= i < k
      invariant i == -1 ==> c !in s[..k]
      invariant i >= 0 ==> s[i] == c && c !in s[i + 1..k]
    {
      assert s[..k + 1] == s[..k] + [s[k]];
      if s[k] == c {
        i := k;
        assert s[i + 1..k + 1] == [];
      } else if i >= 0 {
        assert s[i + 1..k + 1] == s[i + 1..k] + [s[k]];
      }
    }
    assert s[..|s|] == s;
  }

  /** `strchr`: the index of the first `c` in `s`, or -1. */
  method IndexOf(s: seq<char>, c: char) returns (i: int)
    ensures -1 <= i < |s|
    ensures i == -1 ==> c !in s
    ensures i >= 0 ==> s[i] == c && c !in s[..i]
  {
    i := 0;
    while i < |s| && s[i] != c
      invariant 0 <= i <= |s|
      invariant c !in s[..i]
    {
      assert s[..i + 1] == s[..i] + [s[i]];
      i := i + 1;
    }
    if i == |s| {
      assert s[..i] == s;
      i := -1;
    }
  }

  /** `ias_misc_split_filename`.  The source copies the name into a local
      buffer of PATH_MAX characters, so longer names are not accepted. */
  method Split(filename: seq<char>) returns (directory: seq<char>, root: seq<char>, extension: seq<char>)
    requires |filename| < PathMax && '\0' !in filename
    ensures IsSplit(filename, directory, root, extension)
  {
    var slash := LastIndexOf(filename, '/');
    var base: seq<char>;
    if slash >= 0 {
      directory := filename[..slash + 1];
      base := filename[slash + 1..];
    } else {
      directory := [];
      base := filename;
    }
    assert filename[..|directory|] == directory && filename[|directory|..] == base;
    root, extension := SplitBase(base);
  }

  /** The second half of the split: cut a base name at its first '.'. */
  method SplitBase(base: seq<char>) returns (root: seq<char>, extension: seq<char>)
    requires '/' !in base
    ensures IsBaseSplit(base, root, extension)
  {
    var dot := IndexOf(base, '.');
    if dot >= 0 {
      root := base[..dot];
      extension := base[dot + 1..];
      assert base == root + ['.'] + extension;
      assert base[dot] in base;
    } else {
      root := base;
      extension := [];
    }
  }

  lemma DotPosition(b: seq<char>, r: seq<char>, e: seq<char>)
    requires b == r + ['.'] + e && '.' !in r
    ensures b[|r|] == '.' && forall k :: 0 <= k < |r| ==> b[k] != '.'
  {
    forall k | 0 <= k < |r| ensures b[k] != '.' {
      assert b[k] == r[k];
    }
  }

  /** Two splits of the same base name agree. */
  lemma BaseSplitIsUnique(b: seq<char>, r1: seq<char>, e1: seq<char>, r2: seq<char>, e2: seq<char>)
    requires IsBaseSplit(b, r1, e1) && IsBaseSplit(b, r2, e2)
    ensures r1 == r2 && e1 == e2
  {
    if '.' in b {
      DotPosition(b, r1, e1);
      DotPosition(b, r2, e2);
      assert |r1| == |r2|;
      assert r1 == b[..|r1|] && r2 == b[..|r2|];
      assert e1 == b[|r1| + 1..] && e2 == b[|r2| + 1..];
    }
  }

  /** The directory of a split ends exactly at the last '/' of the name. */
  lemma DirectoryEnd(f: seq<char>, d: seq<char>, r: seq<char>, e: seq<char>)
    requires IsSplit(f, d, r, e)
    ensures |d| > 0 ==> f[|d| - 1] == '/'
    ensures forall k :: |d| <= k < |f| ==> f[k] != '/'
  {
    var b := f[|d|..];
    forall k | |d| <= k < |f| ensures f[k] != '/' {
      assert f[k] == b[k - |d|];
    }
  }

  /** The three outputs are determined by the name: any two splits of the
      same name agree. */
  lemma SplitIsUnique(f: seq<char>, d1: seq<char>, r1: seq<char>, e1: seq<char>,
                      d2: seq<char>, r2: seq<char>, e2: seq<char>)
    requires IsSplit(f, d1, r1, e1) && IsSplit(f, d2, r2, e2)
    ensures d1 == d2 && r1 == r2 && e1 == e2
  {
    DirectoryEnd(f, d1, r1, e1);
    DirectoryEnd(f, d2, r2, e2);
    assert |d1| == |d2|;
    BaseSplitIsUnique(f[|d1|..], r1, e1, r2, e2);
  }
}
