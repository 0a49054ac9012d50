/*
 * File-name manipulation of src/os/pl-os.c on POSIX: BaseName(), DirName(),
 * IsAbsolutePath(), PrologPath(), the in-place canonicaliseFileName() and the
 * trailing-'/' convention of the cached working directory.
 */
module OsPath {

  import PathMeaning

  const PATH_MAX: nat := 4096
  const EOS: char := '\0'

  /** The outcome of BaseName() and DirName(): NULL for a NULL path, NULL with ENAMETOOLONG, or the name. */
  datatype PathResult = NullPath | NameTooLong | Path(s: string)

  /*****************************************************************
   * BaseName() and DirName()
   *****************************************************************/

  /** The path without its trailing slashes. */
  function TrimSlashes(s: string): (r: string)
    ensures r <= s
    ensures r == [] || r[|r| - 1] != '/'
    ensures forall k :: |r| <= k < |s| ==> s[k] == '/'
  {
    if s != [] && s[|s| - 1] == '/' then TrimSlashes(s[..|s| - 1]) else s
  }

  /** Where the last component of s starts: just after its last slash, or 0. */
  function ComponentStart(s: string): (i: nat)
    ensures i <= |s|
    ensures forall k :: i <= k < |s| ==> s[k] != '/'
    ensures i == 0 || s[i - 1] == '/'
  {
    if s == [] || s[|s| - 1] == '/' then |s| else ComponentStart(s[..|s| - 1])
  }

  /** The last component, ignoring trailing slashes; "/" for a path of slashes only. */
  function BaseNameOf(f: string): (b: string)
    requires f != []
    ensures b == "/" || '/' !in b
  {
    var t := TrimSlashes(f);
    if t == [] then "/" else t[ComponentStart(t)..]
  }

  /**
   * What is left after dropping the trailing slashes, the last component
   * and the slashes before it; "/" or "." when nothing is left.
   */
  function DirNameOf(f: string): string
    requires f != []
  {
    var t := TrimSlashes(f);
    var u := TrimSlashes(t[..ComponentStart(t)]);
    if u == [] then (if f[0] == '/' then "/" else ".") else u
  }

  /** `*e` for a pointer e into the C string s: the terminating NUL at the end. */
  function CharAt(s: string, i: nat): char {
    if i < |s| then s[i] else EOS
  }

  /** The end of the path once its trailing slashes are skipped. */
  method SkipSlashesBack(s: string, e0: nat) returns (e: nat)
    requires e0 <= |s|
    ensures e <= e0 && s[..e] == TrimSlashes(s[..e0])
  {
    e := e0;
    while e > 0 && s[e - 1] == '/'
      invariant e <= e0
      invariant TrimSlashes(s[..e]) == TrimSlashes(s[..e0])
    {
      assert s[..e][..e - 1] == s[..e - 1];
      e := e - 1;
    }
  }

  /** The start of the component that ends at e0. */
  method SkipComponentBack(s: string, e0: nat) returns (e: nat)
    requires e0 <= |s|
    ensures e == ComponentStart(s[..e0]) && e <= e0
  {
    e := e0;
    while e > 0 && s[e - 1] != '/'
      invariant e <= e0
      invariant ComponentStart(s[..e]) == ComponentStart(s[..e0])
    {
      assert s[..e][..e - 1] == s[..e - 1];
      e := e - 1;
    }
  }

  /**
   * BaseName(): the last component of f, NULL for a NULL path, and NULL
   * (ENAMETOOLONG) when the component does not fit in PATH_MAX bytes.
   */
  method BaseName(f: Option<string>) returns (r: PathResult)
    ensures f.None? <==> r == NullPath
    ensures f == Some([]) ==> r == Path([])
    ensures f.Some? && f.value != [] ==>
              r == (if BaseNameOf(f.value) == "/" || |BaseNameOf(f.value)| + 1 <= PATH_MAX
                    then Path(BaseNameOf(f.value)) else NameTooLong)
  {
    if f.None? {
      return NullPath;
    }
    var s := f.value;
    if s == [] {
      return Path([]);
    }
    var end := SkipSlashesBack(s, |s|);
    assert s[..|s|] == s;
    var e := SkipComponentBack(s, end);
    if e == end && CharAt(s, e) == '/' {
      r := Path("/");
    } else if end - e + 1 <= PATH_MAX {
      r := Path(s[e..end]);
    } else {
      r := NameTooLong;
    }
  }

  /**
   * DirName(): the directory part of f.  With `inPlace` (dir == f) the
   * path is cut short where it is and no length check is made.
   */
  method DirName(f: Option<string>, inPlace: bool) returns (r: PathResult)
    ensures f.None? <==> r == NullPath
    ensures f == Some([]) ==> r == Path(".")
    ensures f.Some? && f.value != [] ==>
              r == (if inPlace || |DirNameOf(f.value)| + 1 <= PATH_MAX || |DirNameOf(f.value)| == 1
                    then Path(DirNameOf(f.value)) else NameTooLong)
  {
    if f.None? {
      return NullPath;
    }
    var s := f.value;
    if s == [] {
      return Path(".");
    }
    var e := SkipSlashesBack(s, |s|);
    assert s[..|s|] == s;
    var t := s[..e];
    e := SkipComponentBack(s, e);
    assert s[..e] == t[..ComponentStart(t)];
    e := SkipSlashesBack(s, e);
    if e == 0 {
      r := if s[0] == '/' then Path("/") else Path(".");
    } else if !inPlace {
      if e + 1 <= PATH_MAX {
        r := Path(s[..e]);
      } else {
        r := NameTooLong;
      }
    } else {
      r := Path(s[..e]);
    }
  }

  /** Splitting a joined path gives back its parts, whatever slashes trail it. */
  lemma SplitJoined(d: string, b: string, trail: nat)
    requires d != [] && d[|d| - 1] != '/'
    requires b != [] && '/' !in b
    ensures var p := d + "/" + b + seq(trail, _ => '/');
            BaseNameOf(p) == b && DirNameOf(p) == d
  {
    var p := d + "/" + b + seq(trail, _ => '/');
    var j := d + "/" + b;
    var t := TrimSlashes(p);
    assert p[|j| - 1] == b[|b| - 1] != '/';
    assert forall k :: |j| <= k < |p| ==> p[k] == '/';
    assert |t| == |j|;
    assert t == j by { assert t == p[..|t|] && p[..|j|] == j; }
    var i := ComponentStart(t);
    assert t[|d|] == '/';
    assert forall k :: |d| < k < |t| ==> t[k] == b[k - |d| - 1] != '/';
    assert i == |d| + 1;
    assert t[i..] == b;
    assert t[..i] == d + "/";
    var u := TrimSlashes(d + "/");
    assert (d + "/")[|d| - 1] != '/';
    assert |u| == |d|;
    assert u == d by { assert u == (d + "/")[..|u|]; }
  }

  /** A name without slashes is its own base name and lives in ".". */
  lemma NoDirectory(f: string)
    requires f != [] && '/' !in f
    ensures BaseNameOf(f) == f && DirNameOf(f) == "."
  {
    assert f[|f| - 1] != '/';
    assert TrimSlashes(f) == f;
  }

  /** A path of slashes only is the root, both as base name and as directory. */
  lemma OnlySlashes(f: string)
    requires f != [] && forall k :: 0 <= k < |f| ==> f[k] == '/'
    ensures BaseNameOf(f) == "/" && DirNameOf(f) == "/"
  {
  }

  /*****************************************************************
   * IsAbsolutePath() and PrologPath()
   *****************************************************************/

  /**
   * IsAbsolutePath() on POSIX: a path starting with '/' or an IRI.
   * file_name_is_iri() is not part of this model; its verdict is `isIri`.
   */
  predicate IsAbsolutePath(p: string, isIri: bool): (r: bool)
    ensures isIri ==> r
    ensures !isIri ==> (r <==> p != [] && p[0] == '/')
  {
    CharAt(p, 0) == '/' || isIri
  }

  /** PrologPath() on Unix: the path unchanged when it fits in len bytes with its NUL, else NULL (ENAMETOOLONG). */
  function PrologPath(p: string, len: nat): (r: Option<string>)
    ensures r.Some? <==> |p| + 1 <= len
    ensures r.Some? ==> r.value == p
  {
    if |p| < len then Some(p) else None
  }

  /**
   * Without an IRI, IsAbsolutePath() agrees with what the path names: the
   * path hangs from the root.  canonicaliseFileName() keeps what a path
   * names, so it keeps a path absolute or relative.
   */
  lemma AbsoluteIsRooted(p: string)
    ensures IsAbsolutePath(p, false) == PathMeaning.Names(p).abs
  {
  }

  /** A path PrologPath() accepts is accepted again, unchanged. */
  lemma PrologPathStable(p: string, len: nat)
    requires PrologPath(p, len).Some?
    ensures PrologPath(PrologPath(p, len).value, len) == PrologPath(p, len)
  {
  }

  datatype Option<T> = None | Some(value: T)

  /*****************************************************************
   * The cached working directory
   *****************************************************************/

  /** The directory with one trailing slash: ChDir() appends one only when it is missing. */
  function WithSlash(d: string): (r: string)
    ensures |r| > 0 && r[|r| - 1] == '/'
    ensures d <= r && |r| <= |d| + 1
    ensures d != [] && d[|d| - 1] == '/' ==> r == d
  {
    if d == [] || d[|d| - 1] != '/' then d + "/" else d
  }

  /** Storing a stored directory again stores the same text. */
  lemma WithSlashIdempotent(d: string)
    ensures WithSlash(WithSlash(d)) == WithSlash(d)
  {
  }

  /** cwd_unlocked() as written: it appends '/' to the canonical getcwd() result unconditionally. */
  function CwdTextAsWritten(canonical: string): (r: string)
    ensures |r| == |canonical| + 1 && r[|r| - 1] == '/'
  {
    canonical + "/"
  }

  /**
   * At the root, getcwd() gives "/", which cwd_unlocked() stores as "//",
   * while ChDir("/") stores "/"; is_cwd("/") then fails after the former.
   */
  lemma RootCwdDoubled()
    ensures CwdTextAsWritten("/") == "//"
    ensures WithSlash("/") == "/"
    ensures CwdTextAsWritten("/") != WithSlash("/")
  {
  }

  /** Away from the root the two agree. */
  lemma CwdTextAgrees(canonical: string)
    requires canonical == [] || canonical[|canonical| - 1] != '/'
    ensures CwdTextAsWritten(canonical) == WithSlash(canonical)
  {
  }

  /** GD->paths.CWDdir and GD->paths.CWDlen: the working directory, ending in '/', once known. */
  class CwdCache {
    var cwdDir: Option<string>
    var cwdLen: nat

    /**
     * A directory is stored exactly when CWDlen is set; it is stored with
     * its length and ends in '/'.
     */
    ghost predicate Valid()
      reads this
    {
      (cwdLen == 0 <==> cwdDir.None?)
      && (cwdLen > 0 ==> |cwdDir.value| == cwdLen && cwdDir.value[cwdLen - 1] == '/')
    }

    constructor ()
      ensures Valid() && cwdDir.None? && cwdLen == 0
    {
      cwdDir := None;
      cwdLen := 0;
    }

    /** is_cwd(): the text equals the stored directory, which ends in '/'. */
    predicate IsCwd(dir: string): (r: bool)
      reads this
      ensures r && Valid() ==> |dir| == cwdLen > 0 && dir[|dir| - 1] == '/'
    {
      cwdDir.Some? && dir == cwdDir.value
    }

    /**
     * PL_changed_cwd(): forget the directory, so the next call asks the
     * system again and no text is taken for the working directory.
     */
    method Changed()
      modifies this
      ensures Valid() && cwdLen == 0 && cwdDir.None?
      ensures forall dir :: !IsCwd(dir)
    {
      cwdLen := 0;
      cwdDir := None;
    }

    /**
     * cwd_unlocked(): when the directory is not known, the canonical
     * getcwd() result is stored with a trailing '/' (None when getcwd() or
     * canonicalisePath() fails, which are not part of this model); the
     * directory is copied out when it fits in cwdlen bytes.
     */
    method Cwd(canonical: Option<string>, cwdlen: nat) returns (r: Option<string>)
      requires Valid()
      modifies this
      ensures Valid()
      ensures old(cwdLen) > 0 ==> cwdDir == old(cwdDir) && cwdLen == old(cwdLen)
      ensures old(cwdLen) == 0 && canonical.None? ==> r.None? && cwdDir == old(cwdDir) && cwdLen == 0
      ensures old(cwdLen) == 0 && canonical.Some? ==>
                cwdDir == Some(WithSlash(canonical.value)) && cwdLen == |WithSlash(canonical.value)|
      ensures r.Some? ==> cwdDir.Some? && r.value == cwdDir.value && cwdLen < cwdlen
      ensures (old(cwdLen) > 0 || canonical.Some?) && cwdLen < cwdlen ==> r.Some?
    {
      if cwdLen == 0 {
        if canonical.None? {
          return None;
        }
        var d := WithSlash(canonical.value);
        cwdLen := |d|;
        cwdDir := Some(d);
      }
      if cwdLen < cwdlen {
        r := cwdDir;
      } else {
        r := None;
      }
    }

    /** ChDir() after a successful chdir(): the absolute path is stored with a trailing '/'. */
    method ChangedTo(absolute: string)
      modifies this
      ensures Valid()
      ensures cwdDir == Some(WithSlash(absolute)) && cwdLen == |WithSlash(absolute)|
      ensures IsCwd(WithSlash(absolute))
    {
      var d := if absolute == [] || absolute[|absolute| - 1] != '/' then absolute + "/" else absolute;
      cwdLen := |d|;
      cwdDir := Some(d);
    }

    /**
     * ChDir(): nothing to do for "", "." or the cached directory itself;
     * otherwise the path is made absolute (AbsoluteFile(), whose result or
     * failure is `absolute`), nothing is done if that is the cached
     * directory, and chdir() (whose success is `chdirOk`) is tried.  Only a
     * successful chdir() changes the cache.
     */
    method ChDir(path: string, absolute: Option<string>, chdirOk: bool) returns (r: bool)
      requires Valid()
      modifies this
      ensures Valid()
      ensures path == "" || path == "." || old(IsCwd(path)) ==>
                r && cwdDir == old(cwdDir) && cwdLen == old(cwdLen)
      ensures !(path == "" || path == "." || old(IsCwd(path))) ==>
                && (absolute.None? ==> !r && cwdDir == old(cwdDir) && cwdLen == old(cwdLen))
                && (absolute.Some? && old(IsCwd(absolute.value)) ==>
                      r && cwdDir == old(cwdDir) && cwdLen == old(cwdLen))
                && (absolute.Some? && !old(IsCwd(absolute.value)) ==>
                      r == chdirOk
                      && (chdirOk ==> cwdDir == Some(WithSlash(absolute.value)) && IsCwd(WithSlash(absolute.value)))
                      && (!chdirOk ==> cwdDir == old(cwdDir) && cwdLen == old(cwdLen)))
    {
      if path == "" || path == "." || IsCwd(path) {
        return true;
      }
      if absolute.None? {
        return false;
      }
      if IsCwd(absolute.value) {
        return true;
      }
      if chdirOk {
        ChangedTo(absolute.value);
        return true;
      }
      return false;
    }
  }
}
