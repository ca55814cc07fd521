/** The three `os.path` functions the program uses, as POSIX `posixpath`
    defines them: `basename`, `splitext` and two-argument `join`. */
module Paths {
  import opened Strings

  /** Index of the last `c` in `s`, or -1 (`str.rfind`). */
  function LastIndex(s: string, c: char): (i: int)
    ensures -1 <= i < |s|
    ensures i >= 0 ==> s[i] == c
    ensures forall j :: i < j < |s| ==> s[j] != c
  {
    if |s| == 0 then -1
    else if s[|s| - 1] == c then |s| - 1
    else LastIndex(s[..|s| - 1], c)
  }

  /** `os.path.basename(p)`: everything after the last slash. */
  function Basename(p: string): (b: string)
    ensures '/' !in b
    ensures EndsWith(p, b)
    ensures |b| < |p| ==> p[|p| - |b| - 1] == '/'
  {
    p[LastIndex(p, '/') + 1..]
  }

  /** Every character of `s` from index `lo` up to (not including) `hi` is a dot. */
  predicate OnlyDots(s: string, lo: int, hi: int)
    decreases hi - lo
  {
    lo >= hi || (0 <= lo < |s| && s[lo] == '.' && OnlyDots(s, lo + 1, hi))
  }

  /** `OnlyDots` is "every character in the range is a dot". */
  lemma {:induction false} OnlyDotsAll(s: string, lo: int, hi: int)
    requires 0 <= lo && hi <= |s|
    ensures OnlyDots(s, lo, hi) <==> forall k :: lo <= k < hi ==> s[k] == '.'
    decreases hi - lo
  {
    if lo < hi {
      OnlyDotsAll(s, lo + 1, hi);
    }
  }

  /** The last path component of `p` has a dot after some character that
      is not a dot: the condition under which it has an extension. */
  predicate HasExtension(p: string) {
    exists j, i :: 0 <= j < i < |p| && p[j] != '.' && p[i] == '.' && NoSlashFrom(p, j)
  }

  predicate NoSlashFrom(p: string, j: int) {
    forall k :: 0 <= j <= k < |p| ==> p[k] != '/'
  }

  /** When the last dot is not in the last component, or only dots come
      before it there, the last component has no extension. */
  lemma NoExtensionCase(p: string)
    requires
      var sepIndex := LastIndex(p, '/');
      var dotIndex := LastIndex(p, '.');
      dotIndex <= sepIndex || OnlyDots(p, sepIndex + 1, dotIndex)
    ensures !HasExtension(p)
  {
    OnlyDotsAll(p, LastIndex(p, '/') + 1, LastIndex(p, '.'));
  }

  /** `os.path.splitext(p)`: the extension starts at the last dot of the
      last path component, unless everything before that dot in the
      component is dots (so `.bashrc` has no extension). The extension is
      empty exactly when the last component has no dot after a character
      other than a dot; otherwise it is a dot followed by neither a dot nor
      a slash, so the split point is the last dot. */
  function SplitExt(p: string): (r: (string, string))
    ensures r.0 + r.1 == p
    ensures r.1 != "" <==> HasExtension(p)
    ensures r.1 != "" ==> r.1[0] == '.' && '.' !in r.1[1..]
    ensures '/' !in r.1
  {
    var sepIndex := LastIndex(p, '/');
    var dotIndex := LastIndex(p, '.');
    OnlyDotsAll(p, sepIndex + 1, dotIndex);
    if dotIndex > sepIndex && !OnlyDots(p, sepIndex + 1, dotIndex) then
      assert p[..dotIndex] + p[dotIndex..] == p;
      var j :| sepIndex + 1 <= j < dotIndex && p[j] != '.';
      assert NoSlashFrom(p, j);
      assert forall k :: 0 <= k < |p[dotIndex..]| ==> p[dotIndex..][k] == p[dotIndex + k];
      (p[..dotIndex], p[dotIndex..])
    else
      NoExtensionCase(p);
      (p, "")
  }

  /** With an extension, the split is at the last dot of the path. */
  lemma SplitExtAt(p: string, d: int)
    requires HasExtension(p)
    requires 0 <= d < |p| && p[d] == '.' && forall k :: d < k < |p| ==> p[k] != '.'
    ensures SplitExt(p) == (p[..d], p[d..])
  {
    var r := SplitExt(p);
    var n := |r.0|;
    assert p[n] == r.1[0];
    forall k | n < k < |p|
      ensures p[k] != '.'
    {
      assert p[k] == r.1[1..][k - n - 1];
    }
    assert r.0 == p[..n] && r.1 == p[n..];
  }

  /** Without an extension, the whole path is the root. */
  lemma SplitExtNone(p: string)
    requires !HasExtension(p)
    ensures SplitExt(p) == (p, "")
  {
  }

  /** The split point follows from the contract alone: the last dot of a
      name with an extension, no extension for a dot file, and none when the
      only dot is in a directory name. */
  lemma SplitExtPlain()
    ensures SplitExt("a.txt") == ("a", ".txt")
  {
    var a := "a.txt";
    assert a[0] != '.' && a[1] == '.' && NoSlashFrom(a, 0);
    SplitExtAt(a, 1);
    assert a[..1] == "a" && a[1..] == ".txt";
  }

  lemma SplitExtLastDot()
    ensures SplitExt("notes/a.tar.gz") == ("notes/a.tar", ".gz")
  {
    var b := "notes/a.tar.gz";
    assert b[6] != '.' && b[7] == '.' && NoSlashFrom(b, 6);
    SplitExtAt(b, 11);
    assert b[..11] == "notes/a.tar" && b[11..] == ".gz";
  }

  lemma SplitExtDotFile()
    ensures SplitExt(".bashrc") == (".bashrc", "")
  {
    var c := ".bashrc";
    assert !HasExtension(c) by {
      if HasExtension(c) {
        var j, i :| 0 <= j < i < |c| && c[j] != '.' && c[i] == '.' && NoSlashFrom(c, j);
        assert false;
      }
    }
    SplitExtNone(c);
  }

  lemma SplitExtDottedDirectory()
    ensures SplitExt("v1.0/readme") == ("v1.0/readme", "")
  {
    var e := "v1.0/readme";
    NoDotAfterSlash(e, 4);
    SplitExtNone(e);
  }

  /** No dot after the last slash: no extension. */
  lemma NoDotAfterSlash(p: string, s: int)
    requires 0 <= s < |p| && p[s] == '/'
    requires forall k :: s < k < |p| ==> p[k] != '.'
    ensures !HasExtension(p)
  {
  }

  /** `os.path.splitext(p)[0]` */
  function StripExt(p: string): string {
    SplitExt(p).0
  }

  /** The root of a name without a slash has no slash either. */
  lemma RootOfSlashFree(p: string)
    requires '/' !in p
    ensures '/' !in StripExt(p)
  {
    var r := SplitExt(p);
    assert forall i :: 0 <= i < |r.0| ==> r.0[i] == p[i];
  }

  /** `os.path.join(a, b)` */
  function JoinPath(a: string, b: string): string {
    if StartsWith(b, "/") then b
    else if a == "" || EndsWith(a, "/") then a + b
    else a + "/" + b
  }

  /** The last index of `c` is the occurrence with no `c` after it. */
  lemma LastIndexIs(s: string, c: char, i: int)
    requires -1 <= i < |s|
    requires i >= 0 ==> s[i] == c
    requires forall j :: i < j < |s| ==> s[j] != c
    ensures LastIndex(s, c) == i
  {
  }

  /** After a prefix ending in a slash, a slash-free name holds the last slash. */
  lemma LastSlashBeforeName(prefix: string, name: string)
    requires |prefix| > 0 && prefix[|prefix| - 1] == '/'
    requires '/' !in name
    ensures LastIndex(prefix + name, '/') == |prefix| - 1
  {
    var p := prefix + name;
    forall j | |prefix| <= j < |p|
      ensures p[j] != '/'
    {
      assert p[j] == name[j - |prefix|];
    }
    LastIndexIs(p, '/', |prefix| - 1);
  }

  /** Joining a directory with a plain file name yields a path whose base
      name is that file name, and which begins with the directory. */
  lemma BasenameOfJoin(dir: string, name: string)
    requires '/' !in name
    ensures Basename(JoinPath(dir, name)) == name
    ensures StartsWith(JoinPath(dir, name), dir)
  {
    assert !StartsWith(name, "/") by {
      if |name| > 0 {
        assert name[0] != '/';
      }
    }
    if dir == "" {
      assert JoinPath(dir, name) == name;
      forall j | 0 <= j < |name|
        ensures name[j] != '/'
      {
      }
      LastIndexIs(name, '/', -1);
    } else if EndsWith(dir, "/") {
      assert JoinPath(dir, name) == dir + name;
      LastSlashBeforeName(dir, name);
      assert (dir + name)[|dir|..] == name;
      assert (dir + name)[..|dir|] == dir;
    } else {
      assert JoinPath(dir, name) == (dir + "/") + name;
      LastSlashBeforeName(dir + "/", name);
      assert ((dir + "/") + name)[|dir| + 1..] == name;
      assert ((dir + "/") + name)[..|dir|] == dir;
    }
  }
}
