/*
 * Windows support helpers of src/pl-nt.c: language-id parsing, the
 * absolute-path test, the _snprintf() work-around, the name tables used by
 * win_shell/3 and win_folder/2, and the path segmenter of the registry
 * access.  Win32 calls (registry, shell folders) become parameters.
 */
module NtSupport {

  datatype Option<T> = None | Some(value: T)

  /*****************************************************************
   * langid_num(): hexadecimal language id
   *****************************************************************/

  predicate IsHexDigit(c: char) {
    ('0' <= c <= '9') || ('A' <= c <= 'F') || ('a' <= c <= 'f')
  }

  predicate AllHex(s: seq<char>) {
    forall i :: 0 <= i < |s| ==> IsHexDigit(s[i])
  }

  function HexDigitValue(c: char): (d: nat)
    requires IsHexDigit(c)
    ensures d < 16
  {
    if '0' <= c <= '9' then c as nat - '0' as nat
    else if 'A' <= c <= 'F' then c as nat - 'A' as nat + 10
    else c as nat - 'a' as nat + 10
  }

  /** The value of a string of hex digits, most significant digit first. */
  function HexValue(s: seq<char>): nat
    requires AllHex(s)
  {
    if s == [] then 0 else HexValue(s[..|s| - 1]) * 16 + HexDigitValue(s[|s| - 1])
  }

  function Pow16(n: nat): (p: nat)
    ensures p >= 1
  {
    if n == 0 then 1 else 16 * Pow16(n - 1)
  }

  const INT_MAX: int := 0x7fff_ffff

  lemma {:induction false} HexValueBound(s: seq<char>)
    requires AllHex(s)
    ensures HexValue(s) < Pow16(|s|)
  {
    if s != [] {
      HexValueBound(s[..|s| - 1]);
    }
  }

  /** A longer prefix never has a smaller value: the accumulator only grows. */
  lemma {:induction false} HexValuePrefixMonotone(s: seq<char>, i: nat)
    requires AllHex(s) && i <= |s|
    ensures HexValue(s[..i]) <= HexValue(s)
  {
    if i < |s| {
      assert s[..|s| - 1][..i] == s[..i];
      HexValuePrefixMonotone(s[..|s| - 1], i);
      assert s[..|s|] == s;
    } else {
      assert s[..i] == s;
    }
  }

  /**
   * langid_num() shifts the accumulator left by four bits per character.
   * The C `int` accumulator is signed: the model requires the final value to
   * fit, which (the accumulator being monotone) keeps every step in range.
   */
  method LangidNum(s: seq<char>) returns (v: int)
    requires AllHex(s)
    requires HexValue(s) <= INT_MAX
    ensures v == HexValue(s)
    ensures 0 <= v < Pow16(|s|)
  {
    v := 0;
    var i := 0;
    while i < |s|
      invariant 0 <= i <= |s|
      invariant v == HexValue(s[..i])
    {
      HexValuePrefixMonotone(s, i + 1);
      assert s[..i + 1][..i] == s[..i];
      v := v * 16;                      // v << 4
      var c := s[i];
      if '0' <= c <= '9' {
        v := v + (c as int - '0' as int);
      } else if 'A' <= c <= 'F' {
        v := v + (c as int - 'A' as int + 10);
      } else {
        v := v + (c as int - 'a' as int + 10);
      }
      i := i + 1;
    }
    assert s[..i] == s;
    HexValueBound(s);
  }

  /** Upper-case hex rendering in exactly `width` digits: the inverse partner. */
  function HexDigitChar(d: nat): (c: char)
    requires d < 16
    ensures IsHexDigit(c) && HexDigitValue(c) == d
  {
    if d < 10 then ('0' as int + d) as char else ('A' as int + d - 10) as char
  }

  function ToHex(v: nat, width: nat): (s: seq<char>)
    ensures |s| == width && AllHex(s)
  {
    if width == 0 then [] else ToHex(v / 16, width - 1) + [HexDigitChar(v % 16)]
  }

  lemma {:induction false} HexRoundTrip(v: nat, width: nat)
    requires v < Pow16(width)
    ensures HexValue(ToHex(v, width)) == v
  {
    if width > 0 {
      var s := ToHex(v, width);
      assert s[..|s| - 1] == ToHex(v / 16, width - 1);
      HexRoundTrip(v / 16, width - 1);
    }
  }

  /*****************************************************************
   * is_windows_abs_path()
   *****************************************************************/

  /** The character at index i of a NUL-terminated string (NUL past its end). */
  function CharAt(s: seq<char>, i: nat): char {
    if i < |s| then s[i] else '\0'
  }

  predicate IsAsciiLetter(c: char) {
    ('A' <= c <= 'Z') || ('a' <= c <= 'z')
  }

  /** A drive prefix "X:" or a UNC prefix "\\". */
  function IsWindowsAbsPath(path: seq<char>): (r: bool)
    ensures r ==> |path| >= 2
    ensures r <==> ((CharAt(path, 1) == ':' && IsAsciiLetter(CharAt(path, 0)))
                    || (CharAt(path, 0) == '\\' && CharAt(path, 1) == '\\'))
  {
    if CharAt(path, 1) == ':' && CharAt(path, 0) < 0x80 as char && IsAsciiLetter(CharAt(path, 0)) then true
    else if CharAt(path, 0) == '\\' && CharAt(path, 1) == '\\' then true
    else false
  }

  /** Only the first two characters matter: appending never changes the answer. */
  lemma AbsPathPrefixClosed(p: seq<char>, q: seq<char>)
    requires |p| >= 2
    ensures IsWindowsAbsPath(p + q) == IsWindowsAbsPath(p)
  {
    assert CharAt(p + q, 0) == CharAt(p, 0) && CharAt(p + q, 1) == CharAt(p, 1);
  }

  /** A POSIX rooted path "/..." is never Windows-absolute. */
  lemma PosixRootNotWindowsAbs(p: seq<char>)
    requires |p| >= 1 && p[0] == '/'
    ensures !IsWindowsAbsPath(p)
  {
  }

  /*****************************************************************
   * ms_snprintf(): post-processing of _vsnprintf()
   *****************************************************************/

  /**
   * _vsnprintf(buffer, n, ...) as documented next to ms_snprintf(): `text` is
   * the formatted output.  Fits: stored with a terminator, length returned.
   * Exactly n: stored without terminator, n returned.  Longer: the first n
   * characters stored without terminator and a negative value returned.
   */
  method VSnprintf(buffer: array<char>, n: nat, text: seq<char>) returns (ret: int)
    requires n <= buffer.Length
    modifies buffer
    ensures |text| < n ==> ret == |text| && buffer[..|text|] == text && buffer[|text|] == '\0'
                           && buffer[|text| + 1..] == old(buffer[|text| + 1..])
    ensures |text| == n ==> ret == n && buffer[..n] == text && buffer[n..] == old(buffer[n..])
    ensures |text| > n ==> ret < 0 && buffer[..n] == text[..n] && buffer[n..] == old(buffer[n..])
  {
    var k := if |text| < n then |text| else n;
    var i := 0;
    while i < k
      invariant 0 <= i <= k
      invariant buffer[..i] == text[..i]
      invariant buffer[i..] == old(buffer[i..])
    {
      buffer[i] := text[i];
      i := i + 1;
    }
    if |text| < n {
      buffer[k] := '\0';
      ret := |text|;
    } else if |text| == n {
      ret := n;
    } else {
      ret := -1;
    }
  }

  /** The string held by a buffer: its characters before the first NUL, if any. */
  predicate Terminated(buffer: seq<char>, count: nat)
  {
    exists i :: 0 <= i < count && i < |buffer| && buffer[i] == '\0'
  }

  /**
   * ms_snprintf() exactly as written: it formats into count-1 characters but
   * then compares the result with count, a value _vsnprintf(count-1) never
   * returns.  Text of exactly count-1 characters is left unterminated.
   */
  method MsSnprintfAsWritten(buffer: array<char>, count: nat, text: seq<char>) returns (ret: int)
    requires 1 <= count <= buffer.Length
    modifies buffer
    ensures |text| > count - 1 ==> ret == count && buffer[count - 1] == '\0'
    ensures |text| == count - 1 ==> ret == count - 1 && buffer[..count] == text + [old(buffer[count - 1])]
  {
    ret := VSnprintf(buffer, count - 1, text);
    if ret < 0 || ret == count {
      ret := count;
      buffer[count - 1] := '\0';
    }
    if |text| == count - 1 {
      assert buffer[..count] == buffer[..count - 1] + [buffer[count - 1]];
    }
  }

  /** The buffer "xxxx" and the 3-character text "abc": no terminator results. */
  method MsSnprintfUnterminatedWitness() returns (terminated: bool)
    ensures !terminated
  {
    var buffer := new char[4](_ => 'x');
    var ret := MsSnprintfAsWritten(buffer, 4, "abc");
    assert buffer[..4] == "abc" + ['x'];
    assert buffer[0] == 'a' && buffer[1] == 'b' && buffer[2] == 'c' && buffer[3] == 'x' by {
      assert buffer[..4][0] == buffer[0] && buffer[..4][1] == buffer[1];
      assert buffer[..4][2] == buffer[2] && buffer[..4][3] == buffer[3];
    }
    terminated := exists i :: 0 <= i < 4 && buffer[i] == '\0';
  }

  /**
   * ms_snprintf() with the comparison the surrounding comment intends
   * (ret == count-1): the buffer is always terminated within count
   * characters and holds the longest prefix of the text that fits.
   */
  method MsSnprintf(buffer: array<char>, count: nat, text: seq<char>) returns (ret: int)
    requires 1 <= count <= buffer.Length
    modifies buffer
    ensures ret == if |text| < count - 1 then |text| else count
    ensures var k := if |text| < count then |text| else count - 1;
            buffer[..k] == text[..k] && buffer[k] == '\0'
    ensures Terminated(buffer[..], count)
  {
    ret := VSnprintf(buffer, count - 1, text);
    if ret < 0 || ret == count - 1 {
      ret := count;
      buffer[count - 1] := '\0';
    }
    var k := if |text| < count then |text| else count - 1;
    assert buffer[..][k] == '\0';
  }

  /*****************************************************************
   * get_showCmd(): window show commands by name
   *****************************************************************/

  // Show-command values from the Win32 headers.
  const SW_HIDE: nat := 0
  const SW_SHOWNORMAL: nat := 1
  const SW_SHOWMINIMIZED: nat := 2
  const SW_SHOWMAXIMIZED: nat := 3
  const SW_MAXIMIZE: nat := 3
  const SW_SHOWNOACTIVATE: nat := 4
  const SW_SHOW: nat := 5
  const SW_MINIMIZE: nat := 6
  const SW_SHOWMINNOACTIVE: nat := 7
  const SW_SHOWNA: nat := 8
  const SW_RESTORE: nat := 9
  const SW_SHOWDEFAULT: nat := 10

  const ShowTypes: seq<(string, nat)> := [
    ("hide", SW_HIDE), ("maximize", SW_MAXIMIZE), ("minimize", SW_MINIMIZE),
    ("restore", SW_RESTORE), ("show", SW_SHOW), ("showdefault", SW_SHOWDEFAULT),
    ("showmaximized", SW_SHOWMAXIMIZED), ("showminimized", SW_SHOWMINIMIZED),
    ("showminnoactive", SW_SHOWMINNOACTIVE), ("showna", SW_SHOWNA),
    ("shownoactive", SW_SHOWNOACTIVATE), ("shownormal", SW_SHOWNORMAL),
    ("normal", SW_SHOWNORMAL), ("iconic", SW_MINIMIZE)
  ]

  /** The index of the first entry of `table` named `name`. */
  function FirstNamed<V>(table: seq<(string, V)>, name: string): (r: Option<nat>)
    ensures r.Some? ==> r.value < |table| && table[r.value].0 == name
                        && forall j :: 0 <= j < r.value ==> table[j].0 != name
    ensures r.None? ==> forall j :: 0 <= j < |table| ==> table[j].0 != name
  {
    if table == [] then None
    else if table[0].0 == name then Some(0)
    else match FirstNamed(table[1..], name)
      case None => None
      case Some(k) => Some(k + 1)
  }

  /** The `show` argument: no term (handle 0), an atom, or anything else. */
  datatype ShowArg = NoTerm | AtomArg(name: string) | NotAnAtom

  datatype ShowResult = ShowCmd(cmd: nat) | DomainError(domain: string, culprit: string) | TypeError

  /** The table scan of get_showCmd(). */
  method GetShowCmd(show: ShowArg) returns (r: ShowResult)
    ensures show.NoTerm? ==> r == ShowCmd(SW_SHOWNORMAL)
    ensures show.NotAnAtom? ==> r == TypeError
    ensures show.AtomArg? ==>
      match FirstNamed(ShowTypes, show.name)
      case Some(k) => r == ShowCmd(ShowTypes[k].1)
      case None => r == DomainError("win_show", show.name)
  {
    match show {
      case NoTerm => return ShowCmd(SW_SHOWNORMAL);
      case NotAnAtom => return TypeError;     // PL_get_chars() raised the error
      case AtomArg(s) =>
        var i := 0;
        while i < |ShowTypes|
          invariant 0 <= i <= |ShowTypes|
          invariant forall j :: 0 <= j < i ==> ShowTypes[j].0 != s
        {
          if ShowTypes[i].0 == s {
            FirstNamedIsFirst(ShowTypes, s, i);
            return ShowCmd(ShowTypes[i].1);
          }
          i := i + 1;
        }
        FirstNamedNone(ShowTypes, s);
        return DomainError("win_show", s);
    }
  }

  lemma {:induction false} FirstNamedIsFirst<V>(table: seq<(string, V)>, name: string, i: nat)
    requires i < |table| && table[i].0 == name
    requires forall j :: 0 <= j < i ==> table[j].0 != name
    ensures FirstNamed(table, name) == Some(i)
  {
    if i > 0 {
      FirstNamedIsFirst(table[1..], name, i - 1);
    }
  }

  lemma FirstNamedNone<V>(table: seq<(string, V)>, name: string)
    requires forall j :: 0 <= j < |table| ==> table[j].0 != name
    ensures FirstNamed(table, name) == None
  {
  }

  /** The compatibility names map to the same commands as their long forms. */
  lemma ShowCmdAliases()
    ensures FirstNamed(ShowTypes, "normal") == Some(12) && FirstNamed(ShowTypes, "shownormal") == Some(11)
    ensures ShowTypes[12].1 == ShowTypes[11].1 == SW_SHOWNORMAL
    ensures FirstNamed(ShowTypes, "iconic") == Some(13) && FirstNamed(ShowTypes, "minimize") == Some(2)
    ensures ShowTypes[13].1 == ShowTypes[2].1
  {
    FirstNamedIsFirst(ShowTypes, "normal", 12);
    FirstNamedIsFirst(ShowTypes, "shownormal", 11);
    FirstNamedIsFirst(ShowTypes, "iconic", 13);
    FirstNamedIsFirst(ShowTypes, "minimize", 2);
  }

  /*****************************************************************
   * win_folder/2: the folderids table
   *****************************************************************/

  // CSIDL values from the Win32 shell headers.
  const CSIDL_DESKTOP: nat := 0x00
  const CSIDL_INTERNET: nat := 0x01
  const CSIDL_PROGRAMS: nat := 0x02
  const CSIDL_CONTROLS: nat := 0x03
  const CSIDL_PRINTERS: nat := 0x04
  const CSIDL_PERSONAL: nat := 0x05
  const CSIDL_FAVORITES: nat := 0x06
  const CSIDL_STARTUP: nat := 0x07
  const CSIDL_RECENT: nat := 0x08
  const CSIDL_SENDTO: nat := 0x09
  const CSIDL_BITBUCKET: nat := 0x0a
  const CSIDL_STARTMENU: nat := 0x0b
  const CSIDL_DESKTOPDIRECTORY: nat := 0x10
  const CSIDL_DRIVES: nat := 0x11
  const CSIDL_NETWORK: nat := 0x12
  const CSIDL_NETHOOD: nat := 0x13
  const CSIDL_FONTS: nat := 0x14
  const CSIDL_TEMPLATES: nat := 0x15
  const CSIDL_COMMON_STARTMENU: nat := 0x16
  const CSIDL_COMMON_PROGRAMS: nat := 0x17
  const CSIDL_COMMON_STARTUP: nat := 0x18
  const CSIDL_COMMON_DESKTOPDIRECTORY: nat := 0x19
  const CSIDL_APPDATA: nat := 0x1a
  const CSIDL_PRINTHOOD: nat := 0x1b
  const CSIDL_LOCAL_APPDATA: nat := 0x1c
  const CSIDL_ALTSTARTUP: nat := 0x1d
  const CSIDL_COMMON_ALTSTARTUP: nat := 0x1e
  const CSIDL_COMMON_FAVORITES: nat := 0x1f
  const CSIDL_INTERNET_CACHE: nat := 0x20
  const CSIDL_COOKIES: nat := 0x21
  const CSIDL_HISTORY: nat := 0x22
  const CSIDL_COMMON_APPDATA: nat := 0x23

  const FolderIds: seq<(string, nat)> := [
    ("common_altstartup", CSIDL_COMMON_ALTSTARTUP), ("altstartup", CSIDL_ALTSTARTUP),
    ("appdata", CSIDL_APPDATA), ("common_appdata", CSIDL_COMMON_APPDATA),
    ("local_appdata", CSIDL_LOCAL_APPDATA), ("controls", CSIDL_CONTROLS),
    ("cookies", CSIDL_COOKIES), ("desktop", CSIDL_DESKTOP),
    ("common_desktopdirectory", CSIDL_COMMON_DESKTOPDIRECTORY),
    ("desktopdirectory", CSIDL_DESKTOPDIRECTORY), ("common_favorites", CSIDL_COMMON_FAVORITES),
    ("favorites", CSIDL_FAVORITES), ("fonts", CSIDL_FONTS), ("history", CSIDL_HISTORY),
    ("internet_cache", CSIDL_INTERNET_CACHE), ("internet", CSIDL_INTERNET),
    ("drives", CSIDL_DRIVES), ("personal", CSIDL_PERSONAL), ("network", CSIDL_NETWORK),
    ("nethood", CSIDL_NETHOOD), ("personal", CSIDL_PERSONAL), ("printers", CSIDL_PRINTERS),
    ("printhood", CSIDL_PRINTHOOD), ("common_programs", CSIDL_COMMON_PROGRAMS),
    ("programs", CSIDL_PROGRAMS), ("recent", CSIDL_RECENT), ("bitbucket", CSIDL_BITBUCKET),
    ("sendto", CSIDL_SENDTO), ("common_startmenu", CSIDL_COMMON_STARTMENU),
    ("startmenu", CSIDL_STARTMENU), ("common_startup", CSIDL_COMMON_STARTUP),
    ("startup", CSIDL_STARTUP), ("templates", CSIDL_TEMPLATES)
  ]

  datatype FolderResult = Folder(csidl: nat) | FolderDomainError(domain: string, culprit: string)

  /** win_folder(+Name, -Path): the csidl of the first entry called Name. */
  method WinFolderLookup(name: string) returns (r: FolderResult)
    ensures match FirstNamed(FolderIds, name)
            case Some(k) => r == Folder(FolderIds[k].1)
            case None => r == FolderDomainError("win_folder", name)
  {
    var i := 0;
    while i < |FolderIds|
      invariant 0 <= i <= |FolderIds|
      invariant forall j :: 0 <= j < i ==> FolderIds[j].0 != name
    {
      if FolderIds[i].0 == name {
        FirstNamedIsFirst(FolderIds, name, i);
        return Folder(FolderIds[i].1);
      }
      i := i + 1;
    }
    FirstNamedNone(FolderIds, name);
    return FolderDomainError("win_folder", name);
  }

  /**
   * The next answer of win_folder(-Name, -Path) from table index `from` on:
   * the first entry whose folder the shell resolves (`resolves` stands for
   * SHGetSpecialFolderPath() succeeding).  A first call starts at 0 and a
   * redo after answer n resumes at n+1.
   */
  function NextFolder(from: nat, resolves: nat -> bool): (r: Option<nat>)
    ensures r.Some? ==> from <= r.value < |FolderIds| && resolves(FolderIds[r.value].1)
                        && forall j :: from <= j < r.value ==> !resolves(FolderIds[j].1)
    ensures r.None? ==> forall j :: from <= j < |FolderIds| ==> !resolves(FolderIds[j].1)
    decreases |FolderIds| - from
  {
    if from >= |FolderIds| then None
    else if resolves(FolderIds[from].1) then Some(from)
    else NextFolder(from + 1, resolves)
  }

  /** The enumeration loop of win_folder/2 (the `generate:` label). */
  method WinFolderGenerate(from: nat, resolves: nat -> bool) returns (r: Option<nat>)
    ensures r == NextFolder(from, resolves)
  {
    var n := from;
    while n < |FolderIds|
      invariant from <= n
      invariant NextFolder(from, resolves) == NextFolder(n, resolves)
      decreases |FolderIds| - n
    {
      if resolves(FolderIds[n].1) {
        return Some(n);
      }
      n := n + 1;
    }
    return None;
  }

  /** The table lists "personal" twice, so enumeration yields it twice. */
  lemma PersonalEnumeratedTwice(resolves: nat -> bool)
    requires resolves(CSIDL_PERSONAL)
    ensures NextFolder(17, resolves) == Some(17) && FolderIds[17].0 == "personal"
    ensures NextFolder(18, resolves).Some? && NextFolder(18, resolves).value <= 20
    ensures NextFolder(20, resolves) == Some(20) && FolderIds[20].0 == "personal"
  {
  }

  /*****************************************************************
   * reg_open_key(): path segmentation
   *****************************************************************/

  predicate IsKeySep(c: char) { c == '/' || c == '\\' }

  /** The length of the segment that starts the path: up to the first separator. */
  function SegmentLength(w: seq<char>): (n: nat)
    ensures n <= |w| && (n < |w| ==> IsKeySep(w[n]))
    ensures forall j :: 0 <= j < n ==> !IsKeySep(w[j])
  {
    if w == [] || IsKeySep(w[0]) then 0 else 1 + SegmentLength(w[1..])
  }

  /** What follows the first segment and the one separator after it. */
  function AfterSegment(w: seq<char>): (rest: seq<char>)
    ensures |rest| < |w| || w == []
  {
    var n := SegmentLength(w);
    if n < |w| then w[n + 1..] else []
  }

  /**
   * The segments reg_open_key() visits: each runs to the next separator,
   * one separator is skipped, and the walk stops at the end of the string
   * (so a trailing separator yields no empty last segment).
   */
  function Segments(w: seq<char>): (segs: seq<seq<char>>)
    decreases |w|
  {
    if w == [] then [] else [w[..SegmentLength(w)]] + Segments(AfterSegment(w))
  }

  /** No segment contains a separator. */
  lemma {:induction false} SegmentsHaveNoSeparator(w: seq<char>)
    ensures forall k, j :: 0 <= k < |Segments(w)| && 0 <= j < |Segments(w)[k]| ==> !IsKeySep(Segments(w)[k][j])
    decreases |w|
  {
    if w != [] {
      SegmentsHaveNoSeparator(AfterSegment(w));
      var segs := Segments(w);
      forall k, j | 0 <= k < |segs| && 0 <= j < |segs[k]|
        ensures !IsKeySep(segs[k][j])
      {
        if k > 0 {
          assert segs[k] == Segments(AfterSegment(w))[k - 1];
        }
      }
    }
  }

  /** Joining segments with '/'. */
  function JoinSlash(segs: seq<seq<char>>): seq<char> {
    if segs == [] then [] else if |segs| == 1 then segs[0] else segs[0] + "/" + JoinSlash(segs[1..])
  }

  /** A '/'-separated path without trailing separator is its segments joined again. */
  lemma {:induction false} SegmentsJoinRoundTrip(w: seq<char>)
    requires forall j :: 0 <= j < |w| ==> w[j] != '\\'
    requires w == [] || w[|w| - 1] != '/'
    ensures JoinSlash(Segments(w)) == w
    decreases |w|
  {
    if w != [] {
      var n := SegmentLength(w);
      var rest := AfterSegment(w);
      if n < |w| {
        SplitAtSeparator(w, n);
        SegmentsJoinRoundTrip(rest);
        JoinCons(w[..n], Segments(rest));
      } else {
        assert w[..n] == w;
      }
    }
  }

  lemma SplitAtSeparator(w: seq<char>, n: nat)
    requires forall j :: 0 <= j < |w| ==> w[j] != '\\'
    requires w != [] && w[|w| - 1] != '/'
    requires n == SegmentLength(w) && n < |w|
    ensures AfterSegment(w) == w[n + 1..] != []
    ensures w == w[..n] + "/" + AfterSegment(w)
    ensures forall j :: 0 <= j < |AfterSegment(w)| ==> AfterSegment(w)[j] != '\\'
    ensures AfterSegment(w)[|AfterSegment(w)| - 1] != '/'
  {
    assert w[n] == '/';
    assert w == w[..n] + [w[n]] + w[n + 1..];
  }

  lemma JoinCons(s: seq<char>, segs: seq<seq<char>>)
    requires segs != []
    ensures JoinSlash([s] + segs) == s + "/" + JoinSlash(segs)
  {
    assert ([s] + segs)[1..] == segs;
  }

  datatype HKey = ClassesRoot | CurrentUser | LocalMachine | Users | SubKey(parent: HKey, name: seq<char>)

  /** The predefined root a segment names, if it names one. */
  function RootKey(seg: seq<char>): Option<HKey> {
    if seg == "HKEY_CLASSES_ROOT" then Some(ClassesRoot)
    else if seg == "HKEY_CURRENT_USER" then Some(CurrentUser)
    else if seg == "HKEY_LOCAL_MACHINE" then Some(LocalMachine)
    else if seg == "HKEY_USERS" then Some(Users)
    else None
  }

  /** One segment of the walk: a root name resets the key, others open or create a subkey. */
  function WalkStep(key: HKey, seg: seq<char>, create: bool,
                    opens: (HKey, seq<char>) -> bool, creates: (HKey, seq<char>) -> bool): Option<HKey>
  {
    match RootKey(seg)
    case Some(root) => Some(root)
    case None =>
      if opens(key, seg) || (create && creates(key, seg)) then Some(SubKey(key, seg)) else None
  }

  /**
   * The key reached by walking `segs` from `key` (`opens`: RegOpenKeyExW
   * succeeds, `creates`: RegCreateKeyExW succeeds); None when a step fails.
   */
  function Walk(key: HKey, segs: seq<seq<char>>, create: bool,
                opens: (HKey, seq<char>) -> bool, creates: (HKey, seq<char>) -> bool): Option<HKey>
    decreases |segs|
  {
    if segs == [] then Some(key)
    else match WalkStep(key, segs[0], create, opens, creates)
      case None => None
      case Some(next) => Walk(next, segs[1..], create, opens, creates)
  }

  /**
   * reg_open_key(): starts at HKEY_CURRENT_USER and handles the path one
   * segment at a time; `rest` plays the part of the advancing character
   * pointer.
   */
  method RegOpenKey(which: seq<char>, create: bool,
                    opens: (HKey, seq<char>) -> bool, creates: (HKey, seq<char>) -> bool)
    returns (r: Option<HKey>)
    ensures r == Walk(CurrentUser, Segments(which), create, opens, creates)
  {
    var key := CurrentUser;
    var rest := which;
    while rest != []
      invariant Walk(CurrentUser, Segments(which), create, opens, creates)
             == Walk(key, Segments(rest), create, opens, creates)
      decreases |rest|
    {
      var n := SegmentEnd(rest);
      var buf := rest[..n];
      WalkFirstSegment(key, rest, create, opens, creates);
      rest := if n < |rest| then rest[n + 1..] else [];

      var root := RootKey(buf);
      if root.Some? {
        key := root.value;
      } else if opens(key, buf) {
        key := SubKey(key, buf);
      } else if !create {
        return None;
      } else if creates(key, buf) {
        key := SubKey(key, buf);
      } else {
        return None;
      }
    }
    return Some(key);
  }

  /** The scan that copies one segment: its length, up to the first separator. */
  method SegmentEnd(w: seq<char>) returns (n: nat)
    ensures n == SegmentLength(w)
  {
    n := 0;
    while n < |w| && !IsKeySep(w[n])
      invariant 0 <= n <= |w|
      invariant forall j :: 0 <= j < n ==> !IsKeySep(w[j])
    {
      n := n + 1;
    }
    SegmentLengthUnique(w, n);
  }

  /** Walking the segments of a non-empty path is one step on its first segment, then the rest. */
  lemma WalkFirstSegment(key: HKey, w: seq<char>, create: bool,
                         opens: (HKey, seq<char>) -> bool, creates: (HKey, seq<char>) -> bool)
    requires w != []
    ensures Walk(key, Segments(w), create, opens, creates)
         == match WalkStep(key, w[..SegmentLength(w)], create, opens, creates)
            case None => None
            case Some(next) => Walk(next, Segments(AfterSegment(w)), create, opens, creates)
  {
    var segs := Segments(w);
    assert segs[0] == w[..SegmentLength(w)] && segs[1..] == Segments(AfterSegment(w));
  }

  lemma {:induction false} SegmentLengthUnique(w: seq<char>, n: nat)
    requires n <= |w| && (n < |w| ==> IsKeySep(w[n]))
    requires forall j :: 0 <= j < n ==> !IsKeySep(w[j])
    ensures SegmentLength(w) == n
  {
    if n > 0 {
      SegmentLengthUnique(w[1..], n - 1);
    }
  }

  /** A path whose last segment names a root opens that root, whatever came before. */
  lemma {:induction false} LastRootWins(key: HKey, segs: seq<seq<char>>, create: bool,
                                        opens: (HKey, seq<char>) -> bool, creates: (HKey, seq<char>) -> bool)
    requires segs != [] && RootKey(segs[|segs| - 1]).Some?
    requires Walk(key, segs, create, opens, creates).Some?
    ensures Walk(key, segs, create, opens, creates) == RootKey(segs[|segs| - 1])
    decreases |segs|
  {
    var next := WalkStep(key, segs[0], create, opens, creates);
    if |segs| > 1 {
      var tail := segs[1..];
      assert tail[|tail| - 1] == segs[|segs| - 1];
      LastRootWins(next.value, tail, create, opens, creates);
    }
  }

  /** Without `create`, a walk that succeeds never depends on RegCreateKeyExW. */
  lemma {:induction false} OpenOnlyIgnoresCreate(key: HKey, segs: seq<seq<char>>,
                                                 opens: (HKey, seq<char>) -> bool,
                                                 c1: (HKey, seq<char>) -> bool, c2: (HKey, seq<char>) -> bool)
    ensures Walk(key, segs, false, opens, c1) == Walk(key, segs, false, opens, c2)
    decreases |segs|
  {
    if segs != [] {
      var next := WalkStep(key, segs[0], false, opens, c1);
      assert next == WalkStep(key, segs[0], false, opens, c2);
      if next.Some? {
        OpenOnlyIgnoresCreate(next.value, segs[1..], opens, c1, c2);
      }
    }
  }
}
