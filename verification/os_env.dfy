/*
 * The environment side of src/os/pl-os.c: getenv3()/Getenv()
 * (src/os/pl-os.c:2472-2502), takeWord()/expandVars() (src/os/pl-os.c:1522-1687)
 * and the editing of the `environ` array by Setenv()/Unsetenv() with
 * growEnviron() (src/os/pl-os.c:2573-2684).
 */
module OsEnv {

  import opened OsPath

  /*****************************************************************
   * getenv3() and Getenv()
   *****************************************************************/

  /** (size_t)-1, what getenv3() returns for an unset variable. */
  const SIZE_MAX: nat := 0xFFFF_FFFF_FFFF_FFFF

  /** The value Getenv() gives: set and short enough to be copied into len bytes with its NUL. */
  function GetenvValue(env: map<string, string>, name: string, len: nat): (r: Option<string>)
    ensures r.Some? <==> name in env && |env[name]| < len
    ensures r.Some? ==> r.value == env[name]
  {
    if name in env && |env[name]| < len then Some(env[name]) else None
  }

  /**
   * getenv3(): the length of the value, or (size_t)-1 when the variable is
   * not set; the value and its NUL are copied only when they fit in len
   * bytes, and an empty string is left otherwise.  getenv() is the lookup
   * in `env`.
   */
  method Getenv3(env: map<string, string>, name: string, buf: array<char>, len: nat) returns (l: nat)
    requires len <= buf.Length
    requires name in env ==> |env[name]| < SIZE_MAX
    modifies buf
    ensures name !in env <==> l == SIZE_MAX
    ensures name !in env ==> buf[..] == old(buf[..])
    ensures name in env ==> l == |env[name]|
    ensures name in env && l < len ==>
              buf[..l] == env[name] && buf[l] == EOS && buf[l + 1..] == old(buf[l + 1..])
    ensures name in env && l >= len && len > 0 ==> buf[0] == EOS && buf[1..] == old(buf[1..])
    ensures name in env && len == 0 ==> buf[..] == old(buf[..])
  {
    if name !in env {
      return SIZE_MAX;
    }
    var s := env[name];
    l := |s|;
    if l < len {
      forall k | 0 <= k < l {
        buf[k] := s[k];
      }
      buf[l] := EOS;
    } else if len > 0 {
      buf[0] := EOS;
    }
  }

  /** Getenv(): the buffer, holding the value, when the variable is set and fits; NULL otherwise. */
  method Getenv(env: map<string, string>, name: string, buf: array<char>, len: nat) returns (r: Option<string>)
    requires len <= buf.Length
    requires name in env ==> |env[name]| < SIZE_MAX
    modifies buf
    ensures r == GetenvValue(env, name, len)
    ensures r.Some? ==> buf[..|r.value|] == r.value && buf[|r.value|] == EOS
  {
    var l := Getenv3(env, name, buf, len);
    if l != SIZE_MAX && l < len {
      r := Some(buf[..l]);
    } else {
      r := None;
    }
  }

  /*****************************************************************
   * takeWord()
   *****************************************************************/

  /** isAlpha(c) || c == '_'; the isAlpha() table is not part of this model, `alpha` is its set. */
  predicate IsWordChar(c: char, alpha: set<char>) {
    c in alpha || c == '_'
  }

  /** The end of the longest run of word characters from i. */
  function WordEnd(s: string, i: nat, alpha: set<char>): (e: nat)
    requires i <= |s|
    ensures i <= e <= |s|
    ensures forall k :: i <= k < e ==> IsWordChar(s[k], alpha)
    ensures e == |s| || !IsWordChar(s[e], alpha)
    decreases |s| - i
  {
    if i < |s| && IsWordChar(s[i], alpha) then WordEnd(s, i + 1, alpha) else i
  }

  /** A word taken from a pattern, and where reading goes on. */
  datatype Word = Word(text: string, next: nat)

  /** What takeWord() gives: the whole run, or NULL when it needs more than maxlen-1 characters. */
  function TakeWordOf(s: string, i: nat, maxlen: int, alpha: set<char>): (r: Option<Word>)
    requires i <= |s|
  {
    var e := WordEnd(s, i, alpha);
    if e - i > maxlen - 1 then None else Some(Word(s[i..e], e))
  }

  /**
   * takeWord(): copies the run of word characters at i, failing (with a
   * max_variable_length representation error) as soon as it needs more
   * than maxlen-1 characters; the read position moves only on success.
   */
  method TakeWord(s: string, i: nat, maxlen: int, alpha: set<char>) returns (r: Option<Word>)
    requires i <= |s| && maxlen >= 1
    ensures r == TakeWordOf(s, i, maxlen, alpha)
    ensures r.Some? ==> |r.value.text| <= maxlen - 1 && r.value.next == i + |r.value.text|
    ensures r.Some? ==> forall k :: 0 <= k < |r.value.text| ==> IsWordChar(r.value.text[k], alpha)
  {
    var j := i;
    var left := maxlen - 1;
    var wrd: string := [];
    while j < |s| && IsWordChar(s[j], alpha)
      invariant i <= j <= |s| && wrd == s[i..j]
      invariant left == maxlen - 1 - (j - i) && (j > i ==> left >= 0)
      invariant WordEnd(s, j, alpha) == WordEnd(s, i, alpha)
      decreases |s| - j
    {
      left := left - 1;
      if left < 0 {
        return None;
      }
      wrd := wrd + [s[j]];
      j := j + 1;
    }
    return Some(Word(wrd, j));
  }

  /*****************************************************************
   * expandVars()
   *****************************************************************/

  /** Why expandVars() fails: the errors it raises, and an unknown ~user or $VAR. */
  datatype ExpandError = MaxVariableLength | NoSuchUser(user: string) | NoSuchVariable(name: string) | MaxPathLength

  datatype Expansion = Expanded(text: string) | Failed(err: ExpandError)

  /** Text already written in front of the rest of an expansion. */
  function Prepend(t: string, x: Expansion): (r: Expansion)
    ensures r.Failed? <==> x.Failed?
    ensures r.Failed? ==> r == x
    ensures r.Expanded? ==> r.text == t + x.text
  {
    match x
    case Expanded(u) => Expanded(t + u)
    case Failed(e) => x
  }

  /**
   * The expansion of pattern[i..] by the for(;;) loop, with no bound on the
   * length: "$NAME" becomes the value of NAME (Getenv() with a PATH_MAX
   * buffer), a '$' not followed by a word character is kept, and every
   * other character is copied.
   */
  function ExpandRest(p: string, i: nat, env: map<string, string>, alpha: set<char>): Expansion
    requires i <= |p|
    decreases |p| - i
  {
    if i == |p| then Expanded([])
    else if p[i] == '$' then
      match TakeWordOf(p, i + 1, PATH_MAX, alpha)
      case None => Failed(MaxVariableLength)
      case Some(w) =>
        if w.text == [] then Prepend("$", ExpandRest(p, i + 1, env, alpha))
        else
          match GetenvValue(env, w.text, PATH_MAX)
          case None => Failed(NoSuchVariable(w.text))
          case Some(v) => Prepend(v, ExpandRest(p, w.next, env, alpha))
    else Prepend([p[i]], ExpandRest(p, i + 1, env, alpha))
  }

  /**
   * The expansion of a whole pattern: a leading "~" or "~user" becomes the
   * home directory, and a '/' after it is dropped when the directory
   * already ends in one; `home` is the value for "~" and `passwd` the
   * user database getpwnam() reads.
   */
  function ExpandSpec(p: string, home: string, passwd: map<string, string>,
                      env: map<string, string>, alpha: set<char>): Expansion
  {
    if p == [] || p[0] != '~' then ExpandRest(p, 0, env, alpha)
    else
      match TakeWordOf(p, 1, PATH_MAX, alpha)
      case None => Failed(MaxVariableLength)
      case Some(w) =>
        match UserHomeOf(w.text, home, passwd)
        case None => Failed(NoSuchUser(w.text))
        case Some(v) =>
          var j := if v != [] && v[|v| - 1] == '/' && w.next < |p| && p[w.next] == '/' then w.next + 1 else w.next;
          Prepend(v, ExpandRest(p, j, env, alpha))
  }

  /** Only a '$' in what is left of the pattern can make the expansion fail. */
  lemma {:induction false} ExpandRestFailsAtDollar(p: string, i: nat, env: map<string, string>, alpha: set<char>)
    requires i <= |p|
    ensures ExpandRest(p, i, env, alpha).Failed? ==> '$' in p[i..]
    decreases |p| - i
  {
    if i < |p| && p[i] != '$' {
      ExpandRestFailsAtDollar(p, i + 1, env, alpha);
      assert p[i + 1..] == p[i..][1..];
    } else if i < |p| {
      assert p[i..][0] == '$';
    }
  }

  /** A pattern without '$' and without a leading '~' always expands. */
  lemma ExpandSpecFails(p: string, home: string, passwd: map<string, string>,
                        env: map<string, string>, alpha: set<char>)
    ensures ExpandSpec(p, home, passwd, env, alpha).Failed? ==> '$' in p || (p != [] && p[0] == '~')
  {
    if p == [] || p[0] != '~' {
      ExpandRestFailsAtDollar(p, 0, env, alpha);
      assert p[0..] == p;
    }
  }

  /** The directory "~" (empty user) or "~user" stands for. */
  function UserHomeOf(user: string, home: string, passwd: map<string, string>): Option<string> {
    if user == [] then Some(home)
    else if user in passwd then Some(passwd[user])
    else None
  }

  /** GD->os.myhome once computed: $HOME when it is set and fits, else "/". */
  function HomeOf(myHome: Option<string>, env: map<string, string>): string {
    if myHome.Some? then myHome.value
    else match GetenvValue(env, "HOME", PATH_MAX)
      case Some(v) => (match PrologPath(v, PATH_MAX) case Some(h) => h case None => "/")
      case None => "/"
  }

  /** A pattern with no '$' in it is copied unchanged. */
  lemma {:induction false} ExpandRestPlain(p: string, i: nat, env: map<string, string>, alpha: set<char>)
    requires i <= |p| && forall k :: i <= k < |p| ==> p[k] != '$'
    ensures ExpandRest(p, i, env, alpha) == Expanded(p[i..])
    decreases |p| - i
  {
    if i < |p| {
      ExpandRestPlain(p, i + 1, env, alpha);
      assert p[i..] == [p[i]] + p[i + 1..];
    }
  }

  /** "~/x" never becomes "//x": the '/' is dropped after a home directory that ends in one. */
  lemma TildeSlash(x: string, home: string, passwd: map<string, string>, env: map<string, string>, alpha: set<char>)
    requires home != [] && '$' !in x
    requires '/' !in alpha
    ensures ExpandSpec("~/" + x, home, passwd, env, alpha)
            == Expanded(if home[|home| - 1] == '/' then home + x else home + "/" + x)
  {
    var p := "~/" + x;
    assert p[0] == '~' && p[1] == '/';
    assert !IsWordChar(p[1], alpha);
    assert WordEnd(p, 1, alpha) == 1;
    assert p[1..1] == [];
    assert TakeWordOf(p, 1, PATH_MAX, alpha) == Some(Word([], 1));
    ExpandRestPlain(p, 1, env, alpha);
    ExpandRestPlain(p, 2, env, alpha);
    assert p[2..] == x;
    assert p[1..] == "/" + x;
  }

  /** A set variable is replaced by its value, an unset one makes the expansion fail. */
  lemma VariableLookup(name: string, env: map<string, string>, alpha: set<char>)
    requires name != [] && forall k :: 0 <= k < |name| ==> name[k] in alpha
    requires |name| < PATH_MAX
    ensures name in env && |env[name]| < PATH_MAX ==>
              ExpandRest("$" + name, 0, env, alpha) == Expanded(env[name])
    ensures name !in env ==> ExpandRest("$" + name, 0, env, alpha) == Failed(NoSuchVariable(name))
  {
    var p := "$" + name;
    assert forall k :: 1 <= k < |p| ==> p[k] == name[k - 1];
    assert WordEnd(p, 1, alpha) == |p|;
    assert p[1..|p|] == name;
  }

  /**
   * expandVars() as written reads user[0] and var[0] straight after
   * takeWord(), which is NULL when the word is too long.
   */
  datatype WordUse = NullDereference | CopyLiteral | LookUp(word: string)

  function UseWordAsWritten(w: Option<Word>): WordUse {
    if w.None? then NullDereference
    else if w.value.text == [] then CopyLiteral
    else LookUp(w.value.text)
  }

  /** "$" followed by PATH_MAX letters: takeWord() fails and the NULL it returns is dereferenced. */
  lemma LongVariableDereferencesNull(alpha: set<char>)
    requires 'a' in alpha
    ensures var p := "$" + seq(PATH_MAX, _ => 'a');
            TakeWordOf(p, 1, PATH_MAX, alpha).None?
            && UseWordAsWritten(TakeWordOf(p, 1, PATH_MAX, alpha)) == NullDereference
            && ExpandRest(p, 0, map[], alpha) == Failed(MaxVariableLength)
  {
    var p := "$" + seq(PATH_MAX, _ => 'a');
    assert forall k :: 1 <= k < |p| ==> p[k] == 'a';
    assert WordEnd(p, 1, alpha) == |p|;
  }

  /** The home directories expandVars() caches: GD->os.myhome, and GD->os.fred with GD->os.fredshome. */
  class UserDirs {
    const passwd: map<string, string>
    var myHome: Option<string>
    var fred: Option<string>
    var fredsHome: string

    /** The cached user's home is the one the user database gives. */
    ghost predicate Valid()
      reads this
    {
      fred.Some? ==> fred.value in passwd && fredsHome == passwd[fred.value]
    }

    constructor (db: map<string, string>)
      ensures Valid() && passwd == db && myHome.None? && fred.None?
    {
      passwd := db;
      myHome := None;
      fred := None;
      fredsHome := [];
    }

    /** "~": GD->os.myhome, computed from $HOME (or "/") on first use and kept. */
    method Home(env: map<string, string>) returns (h: string)
      requires forall v :: v in env.Values ==> |v| < SIZE_MAX
      modifies this
      ensures h == HomeOf(old(myHome), env) && myHome == Some(h)
      ensures fred == old(fred) && fredsHome == old(fredsHome)
    {
      if myHome.None? {
        var envbuf := new char[PATH_MAX];
        var value := Getenv(env, "HOME", envbuf, PATH_MAX);
        if value.Some? && PrologPath(value.value, PATH_MAX).Some? {
          myHome := PrologPath(value.value, PATH_MAX);
        } else {
          myHome := Some("/");
        }
      }
      h := myHome.value;
    }

    /** "~user": the cached home when it is the cached user, else getpwnam(), which then replaces the cache. */
    method UserHome(user: string) returns (h: Option<string>)
      requires Valid()
      modifies this
      ensures Valid() && myHome == old(myHome)
      ensures h == (if user in passwd then Some(passwd[user]) else None)
      ensures h.None? ==> fred == old(fred) && fredsHome == old(fredsHome)
      ensures h.Some? ==> fred == Some(user)
    {
      if fred == Some(user) {
        return Some(fredsHome);
      }
      if user !in passwd {
        return None;
      }
      fred := Some(user);
      fredsHome := passwd[user];
      h := Some(fredsHome);
    }

    /** The home directory for "~" or "~user", through the caches. */
    method TildeHome(user: string, env: map<string, string>) returns (h: Option<string>)
      requires Valid()
      requires forall v :: v in env.Values ==> |v| < SIZE_MAX
      modifies this
      ensures Valid()
      ensures h == UserHomeOf(user, HomeOf(old(myHome), env), passwd)
      ensures myHome == old(myHome) || (old(myHome).None? && myHome == Some(HomeOf(None, env)))
    {
      if user == [] {
        var home := Home(env);
        h := Some(home);
      } else {
        h := UserHome(user);
      }
    }

    /**
     * expandVars(): the expansion of the pattern when it and its NUL fit in
     * maxlen bytes.  Every character written is first checked against
     * maxlen, so any failure is either the first error the pattern holds or
     * max_path_length.  A word too long for takeWord() fails with
     * max_variable_length.
     */
    method ExpandVars(pattern: string, maxlen: int, env: map<string, string>, alpha: set<char>)
      returns (r: Expansion)
      requires Valid()
      requires forall v :: v in env.Values ==> |v| < SIZE_MAX
      modifies this
      ensures Valid()
      ensures var x := ExpandSpec(pattern, HomeOf(old(myHome), env), passwd, env, alpha);
              (r.Expanded? <==> x.Expanded? && |x.text| + 1 < maxlen)
              && (r.Expanded? ==> r.text == x.text)
              && (r.Failed? ==> r.err == MaxPathLength || (x.Failed? && r.err == x.err))
      ensures myHome == old(myHome) || (old(myHome).None? && myHome == Some(HomeOf(None, env)))
    {
      var out: string := [];
      var i: nat := 0;
      if |pattern| > 0 && pattern[0] == '~' {
        var user := TakeWord(pattern, 1, PATH_MAX, alpha);
        if user.None? {
          return Failed(MaxVariableLength);
        }
        var home := TildeHome(user.value.text, env);
        if home.None? {
          return Failed(NoSuchUser(user.value.text));
        }
        var value := home.value;
        if |value| + 1 >= maxlen {
          return Failed(MaxPathLength);
        }
        out := value;
        i := user.value.next;
        if |value| > 0 && value[|value| - 1] == '/' && i < |pattern| && pattern[i] == '/' {
          i := i + 1;
        }
      }
      r := ExpandLoop(pattern, i, out, maxlen, env, alpha);
    }
  }

  /** The for(;;) loop of expandVars() from pattern[i], with `out` already written. */
  method ExpandLoop(pattern: string, i0: nat, out0: string, maxlen: int,
                    env: map<string, string>, alpha: set<char>) returns (r: Expansion)
    requires i0 <= |pattern|
    requires |out0| > 0 ==> |out0| + 1 < maxlen
    requires forall v :: v in env.Values ==> |v| < SIZE_MAX
    ensures var x := Prepend(out0, ExpandRest(pattern, i0, env, alpha));
            (r.Expanded? <==> x.Expanded? && |x.text| + 1 < maxlen)
            && (r.Expanded? ==> r.text == x.text)
            && (r.Failed? ==> r.err == MaxPathLength || (x.Failed? && r.err == x.err))
  {
    ghost var x := Prepend(out0, ExpandRest(pattern, i0, env, alpha));
    var out, i := out0, i0;
    while i < |pattern|
      invariant i <= |pattern|
      invariant |out| > 0 ==> |out| + 1 < maxlen
      invariant x == Prepend(out, ExpandRest(pattern, i, env, alpha))
      decreases |pattern| - i
    {
      var c := pattern[i];
      i := i + 1;
      if c == '$' {
        var w := TakeWord(pattern, i, PATH_MAX, alpha);
        if w.None? {
          return Failed(MaxVariableLength);
        }
        if w.value.text != [] {
          var envbuf := new char[PATH_MAX];
          var value := Getenv(env, w.value.text, envbuf, PATH_MAX);
          if value.None? {
            return Failed(NoSuchVariable(w.value.text));
          }
          if |out| + |value.value| + 1 >= maxlen {
            return Failed(MaxPathLength);
          }
          PrependTwice(out, value.value, ExpandRest(pattern, w.value.next, env, alpha));
          out := out + value.value;
          i := w.value.next;
          continue;
        }
      }
      if |out| + 1 + 1 >= maxlen {
        return Failed(MaxPathLength);
      }
      PrependTwice(out, [c], ExpandRest(pattern, i, env, alpha));
      out := out + [c];
    }
    if |out| + 1 >= maxlen {
      return Failed(MaxPathLength);
    }
    r := Expanded(out);
  }

  lemma PrependTwice(t: string, u: string, x: Expansion)
    ensures Prepend(t, Prepend(u, x)) == Prepend(t + u, x)
  {
    if x.Expanded? {
      assert t + (u + x.text) == (t + u) + x.text;
    }
  }

  /*****************************************************************
   * The environ array: matchName(), Setenv(), Unsetenv(), growEnviron()
   *****************************************************************/

  /**
   * The value an entry "name=value" holds for this name ("" for an entry
   * that is just the name), None when the entry is another name's.
   */
  function EntryValue(e: string, name: string): Option<string> {
    if name <= e && (|e| == |name| || e[|name|] == '=') then
      Some(if |e| == |name| then [] else e[|name| + 1..])
    else None
  }

  /** matchName(): walks the entry and the name together while they agree. */
  method MatchName(e: string, name: string) returns (r: Option<string>)
    ensures r == EntryValue(e, name)
  {
    var i := 0;
    while i < |name| && i < |e| && e[i] == name[i]
      invariant i <= |name| && i <= |e| && e[..i] == name[..i]
    {
      i := i + 1;
    }
    if (i == |e| || e[i] == '=') && i == |name| {
      assert name <= e;
      r := Some(if i == |e| then [] else e[i + 1..]);
    } else {
      r := None;
    }
  }

  /** The first entry for the name, or |es| when there is none: where Setenv() and Unsetenv() stop. */
  function Find(es: seq<string>, name: string): (i: nat)
    ensures i <= |es|
    ensures i < |es| ==> EntryValue(es[i], name).Some?
  {
    if es == [] then 0
    else if EntryValue(es[0], name).Some? then 0
    else 1 + Find(es[1..], name)
  }

  /** The value the first entry for the name gives, as getenv() would see it. */
  function Lookup(es: seq<string>, name: string): Option<string> {
    var i := Find(es, name);
    if i < |es| then EntryValue(es[i], name) else None
  }

  /** The entry setEntry() builds. */
  function Entry(name: string, value: string): string {
    name + "=" + value
  }

  /** The entries of a NULL-terminated prefix. */
  function Values(s: seq<Option<string>>): (r: seq<string>)
    requires forall k :: 0 <= k < |s| ==> s[k].Some?
    ensures |r| == |s| && forall k :: 0 <= k < |s| ==> r[k] == s[k].value
  {
    if s == [] then [] else [s[0].value] + Values(s[1..])
  }

  /** ROUND(n, 32). */
  function Round32(x: int): (r: int)
    ensures r >= x && r % 32 == 0
  {
    ((x + 31) / 32) * 32
  }

  /** A set name always reads back as the value just set. */
  lemma SetThenLookup(es: seq<string>, name: string, value: string)
    ensures var i := Find(es, name);
            var after := if i < |es| then es[i := Entry(name, value)] else es + [Entry(name, value)];
            Lookup(after, name) == Some(value)
  {
    var i := Find(es, name);
    var after := if i < |es| then es[i := Entry(name, value)] else es + [Entry(name, value)];
    EntryRoundTrip(name, value);
    FindFirst(es, name);
    forall k | 0 <= k < i
      ensures EntryValue(after[k], name).None?
    {
      assert after[k] == es[k];
    }
    assert after[i] == Entry(name, value);
    FindIs(after, name, i);
  }

  /** The entry setEntry() builds gives back the value for its name. */
  lemma EntryRoundTrip(name: string, value: string)
    ensures EntryValue(Entry(name, value), name) == Some(value)
  {
    var e := Entry(name, value);
    assert e[..|name|] == name;
    assert e[|name| + 1..] == value;
  }

  /** Setting a name leaves every other name (neither holding '=') reading as before. */
  lemma SetKeepsOthers(es: seq<string>, name: string, value: string, other: string)
    requires '=' !in name && '=' !in other && other != name
    ensures var i := Find(es, name);
            var after := if i < |es| then es[i := Entry(name, value)] else es + [Entry(name, value)];
            Lookup(after, other) == Lookup(es, other)
  {
    var i := Find(es, name);
    var x := Entry(name, value);
    EntryRoundTrip(name, value);
    if EntryValue(x, other).Some? {
      OneNamePerEntry(x, name, other);
    }
    if i < |es| {
      if EntryValue(es[i], other).Some? {
        OneNamePerEntry(es[i], name, other);
      }
      ReplaceKeepsLookup(es, i, x, other);
    } else {
      AppendKeepsLookup(es, x, other);
    }
  }

  /** An entry is for one name only, when names hold no '='. */
  lemma OneNamePerEntry(e: string, a: string, b: string)
    requires '=' !in a && '=' !in b
    requires EntryValue(e, a).Some? && EntryValue(e, b).Some?
    ensures a == b
  {
    if |a| == |b| {
      assert a == e[..|a|] == b;
    }
  }

  lemma ReplaceKeepsLookup(es: seq<string>, i: nat, x: string, name: string)
    requires i < |es| && EntryValue(es[i], name).None? && EntryValue(x, name).None?
    ensures Lookup(es[i := x], name) == Lookup(es, name)
  {
    var after := es[i := x];
    var j := Find(es, name);
    FindFirst(es, name);
    forall k | 0 <= k < j && k < |after|
      ensures EntryValue(after[k], name).None?
    {
      if k != i {
        assert after[k] == es[k];
      }
    }
    if j < |es| {
      assert after[j] == es[j];
      FindIs(after, name, j);
    } else {
      FindNone(after, name);
    }
  }

  lemma AppendKeepsLookup(es: seq<string>, x: string, name: string)
    requires EntryValue(x, name).None?
    ensures Lookup(es + [x], name) == Lookup(es, name)
  {
    var after := es + [x];
    var j := Find(es, name);
    FindFirst(es, name);
    forall k | 0 <= k < j
      ensures EntryValue(after[k], name).None?
    {
      assert after[k] == es[k];
    }
    if j < |es| {
      assert after[j] == es[j];
      FindIs(after, name, j);
    } else {
      assert after[|es|] == x;
      FindNone(after, name);
    }
  }

  /** Find() stops at the first entry for the name: none before it is one. */
  lemma {:induction false} FindFirst(es: seq<string>, name: string)
    ensures forall k :: 0 <= k < Find(es, name) ==> EntryValue(es[k], name).None?
  {
    if es != [] && EntryValue(es[0], name).None? {
      FindFirst(es[1..], name);
      assert forall k :: 1 <= k < Find(es, name) ==> es[k] == es[1..][k - 1];
    }
  }

  lemma {:induction false} FindIs(es: seq<string>, name: string, i: nat)
    requires i < |es| && EntryValue(es[i], name).Some?
    requires forall k :: 0 <= k < i ==> EntryValue(es[k], name).None?
    ensures Find(es, name) == i
  {
    if i > 0 {
      assert forall k :: 0 <= k < i - 1 ==> es[1..][k] == es[k + 1];
      FindIs(es[1..], name, i - 1);
    }
  }

  /** Once the first entry for a name is removed, the next entry for it, if any, is the one seen. */
  lemma {:induction false} UnsetThenLookup(es: seq<string>, name: string)
    requires Find(es, name) < |es|
    ensures var i := Find(es, name);
            Lookup(es[..i] + es[i + 1..], name) == Lookup(es[i + 1..], name)
  {
    var i := Find(es, name);
    if i == 0 {
      assert es[..0] + es[1..] == es[1..];
    } else {
      var after := es[..i] + es[i + 1..];
      var tail := es[1..];
      assert Find(tail, name) == i - 1;
      UnsetThenLookup(tail, name);
      assert after[1..] == tail[..i - 1] + tail[i..];
      assert tail[i..] == es[i + 1..];
      assert after[0] == es[0];
      LookupTail(after, name);
    }
  }

  /** An entry for another name in front changes nothing. */
  lemma LookupTail(es: seq<string>, name: string)
    requires es != [] && EntryValue(es[0], name).None?
    ensures Lookup(es, name) == Lookup(es[1..], name)
  {
    var j := Find(es[1..], name);
    if j < |es[1..]| {
      assert es[1..][j] == es[j + 1];
    }
  }

  lemma {:induction false} FindNone(es: seq<string>, name: string)
    requires forall k :: 0 <= k < |es| ==> EntryValue(es[k], name).None?
    ensures Find(es, name) == |es|
  {
    if es != [] {
      FindNone(es[1..], name);
    }
  }

  /**
   * The `environ` array, NULL-terminated, with the bookkeeping of
   * growEnviron(): `size` is -1 while the array is still the one the
   * process started with, and once it is copied it is the array's length
   * and `filled` the number of entries.
   */
  class Environ {
    var env: array<Option<string>>
    var size: int
    var filled: int
    ghost var n: nat

    /** Entries up to index n, then NULL. */
    ghost predicate Terminated()
      reads this, env
    {
      n < env.Length && env[n].None? && forall k :: 0 <= k < n ==> env[k].Some?
    }

    ghost predicate Valid()
      reads this, env
    {
      Terminated() && (size >= 0 ==> env.Length == size && filled == n)
    }

    /** The variables, in order. */
    ghost function Entries(): seq<string>
      reads this, env
      requires Terminated()
    {
      Values(env[..n])
    }

    constructor (initial: seq<string>)
      ensures Valid() && Entries() == initial && size == -1
    {
      var a := new Option<string>[|initial| + 1](_ => None);
      var k := 0;
      while k < |initial|
        invariant k <= |initial|
        invariant forall j :: 0 <= j < k ==> a[j] == Some(initial[j])
        invariant forall j :: k <= j < a.Length ==> a[j].None?
      {
        a[k] := Some(initial[k]);
        k := k + 1;
      }
      env := a;
      n := |initial|;
      size := -1;
      filled := 0;
    }

    /** growEnviron(e, 0), "reset after a dump": the next growth copies the array again. */
    method Reset()
      requires Valid()
      modifies this
      ensures Valid() && size == -1 && env == old(env) && n == old(n)
    {
      size := -1;
    }

    /** Copies the entries and the NULL after them into a new array of the given size. */
    method CopyInto(cap: nat) returns (b: array<Option<string>>)
      requires Terminated() && n + 1 <= cap
      ensures fresh(b) && b.Length == cap
      ensures b[..n + 1] == env[..n + 1]
    {
      b := new Option<string>[cap](_ => None);
      var k := 0;
      while env[k].Some?
        invariant k <= n
        invariant b[..k] == env[..k]
        invariant forall j :: k <= j < b.Length ==> b[j].None?
        decreases n - k
      {
        b[k] := env[k];
        k := k + 1;
      }
      assert b[..n + 1] == env[..n + 1];
    }

    /**
     * growEnviron(e, amount): the first time the entries are counted and
     * copied into a new array rounded up to 32 slots with 10 to spare;
     * later, when the entries and the NULL no longer fit, 32 more slots are
     * allocated and the entries copied.  Either way the entries are kept
     * and there is room for `amount` more and a NULL.
     */
    method Grow(amount: int)
      requires Valid() && (amount == 1 || (amount == -1 && n > 0))
      modifies this
      ensures Terminated() && n == old(n) && env[..n + 1] == old(env[..n + 1])
      ensures env == old(env) || fresh(env)
      ensures size >= 0 && env.Length == size && filled == n + amount && n + amount + 1 <= size
    {
      if size < 0 {
        var count := CountEntries();
        filled := count;
        size := Round32(filled + 10 + amount);
        var b := CopyInto(size);
        filled := filled + amount;
        env := b;
        return;
      }
      filled := filled + amount;
      if filled + 1 > size {
        size := size + 32;
        var b := CopyInto(size);
        env := b;
      }
    }

    /** `for(e1=e, filled=0; *e1; e1++, filled++)`. */
    method CountEntries() returns (count: nat)
      requires Terminated()
      ensures count == n
    {
      count := 0;
      while env[count].Some?
        invariant count <= n
        decreases n - count
      {
        count := count + 1;
      }
    }

    /**
     * Setenv(): the first entry for the name is replaced (when its value
     * differs) or a new entry is appended before the NULL; the old value,
     * if any, is returned.
     */
    method Setenv(name: string, value: string) returns (r: Option<string>)
      requires Valid()
      modifies this, env
      ensures Valid()
      ensures r == Lookup(old(Entries()), name)
      ensures var i := Find(old(Entries()), name);
              Entries() == (if i == |old(Entries())| then old(Entries()) + [Entry(name, value)]
                            else if r == Some(value) then old(Entries())
                            else old(Entries())[i := Entry(name, value)])
    {
      ghost var es := Entries();
      var i, v := FindEntry(name);
      if v.Some? {
        if v.value != value {
          env[i] := Some(Entry(name, value));
          assert env[..n] == old(env[..n])[i := Some(Entry(name, value))];
        }
        return v;
      }
      Append(Entry(name, value));
      r := None;
    }

    /** The end of Setenv(): growEnviron(environ, 1), the new entry where the NULL was, and a NULL after it. */
    method Append(entry: string)
      requires Valid()
      modifies this, env
      ensures Valid() && Entries() == old(Entries()) + [entry]
    {
      ghost var es := Entries();
      Grow(1);
      var i := CountEntries();
      env[i] := Some(entry);
      env[i + 1] := None;
      n := n + 1;
      assert env[..n] == old(env[..n]) + [Some(entry)];
    }

    /** The `for(n=0, e=environ; *e; e++, n++)` search Setenv() and Unsetenv() share. */
    method FindEntry(name: string) returns (i: nat, v: Option<string>)
      requires Terminated()
      ensures i == Find(Entries(), name) && v == Lookup(Entries(), name)
    {
      ghost var es := Entries();
      i := 0;
      while env[i].Some?
        invariant i <= n
        invariant forall k :: 0 <= k < i ==> EntryValue(es[k], name).None?
        decreases n - i
      {
        v := MatchName(env[i].value, name);
        if v.Some? {
          FindIs(es, name, i);
          return;
        }
        i := i + 1;
      }
      FindNone(es, name);
      v := None;
    }

    /**
     * Unsetenv(): the first entry for the name is removed and the later
     * entries, with the NULL, move down one; the old value is returned.
     */
    method Unsetenv(name: string) returns (r: Option<string>)
      requires Valid()
      modifies this, env
      ensures Valid()
      ensures r == Lookup(old(Entries()), name)
      ensures var i := Find(old(Entries()), name);
              Entries() == (if i == |old(Entries())| then old(Entries())
                            else old(Entries())[..i] + old(Entries())[i + 1..])
    {
      var i, v := FindEntry(name);
      if v.Some? {
        Grow(-1);
        ShiftDown(i);
      }
      return v;
    }

    /** Unsetenv()'s removal of entry i, once growEnviron() has counted it out. */
    method ShiftDown(i: nat)
      requires Terminated() && i < n
      requires size >= 0 && env.Length == size && filled == n - 1
      modifies this, env
      ensures Valid() && n == old(n) - 1 && env == old(env)
      ensures Entries() == old(Values(env[..n]))[..i] + old(Values(env[..n]))[i + 1..]
    {
      ghost var es := Values(env[..n]);
      ShiftEntries(env, i, n);
      n := n - 1;
      assert Terminated();
      assert Entries() == es[..i] + es[i + 1..];
    }
  }

  /** `do { e[0] = e[1]; e++; } while(*e)` from entry i of an array whose NULL is at m. */
  method ShiftEntries(a: array<Option<string>>, i: nat, ghost m: nat)
    requires i < m < a.Length && a[m].None? && forall k :: 0 <= k < m ==> a[k].Some?
    modifies a
    ensures forall k :: 0 <= k < i ==> a[k] == old(a[k])
    ensures forall k :: i <= k < m ==> a[k] == old(a[k + 1])
    ensures forall k :: m <= k < a.Length ==> a[k] == old(a[k])
  {
    var j := i;
    a[j] := a[j + 1];
    j := j + 1;
    while a[j].Some?
      invariant i < j <= m
      invariant forall k :: 0 <= k < i ==> a[k] == old(a[k])
      invariant forall k :: i <= k < j ==> a[k] == old(a[k + 1])
      invariant forall k :: j <= k < a.Length ==> a[k] == old(a[k])
      decreases m - j
    {
      a[j] := a[j + 1];
      j := j + 1;
    }
  }
}
