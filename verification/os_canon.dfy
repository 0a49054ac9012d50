/*
 * canonicaliseFileName() on POSIX (src/os/pl-os.c:1308-1429): the path is
 * rewritten in place in its own buffer, with a read pointer `inp`, a write
 * pointer `outp` that never passes it, and a stack of saved output
 * positions, one per component, that `..` pops.
 */
module OsCanon {

  import opened PathMeaning

  const EOS: char := '\0'

  /** strlen(): the index of the first NUL. */
  function StrLen(s: seq<char>): (n: nat)
    requires EOS in s
    ensures n < |s| && s[n] == EOS
    ensures forall k :: 0 <= k < n ==> s[k] != EOS
  {
    if s[0] == EOS then 0
    else
      assert EOS in s[1..] by {
        var i :| 0 <= i < |s| && s[i] == EOS;
        assert s[1..][i - 1] == EOS;
      }
      1 + StrLen(s[1..])
  }

  /** The buffer s holds a C string of length n. */
  ghost predicate CStr(s: seq<char>, n: nat) {
    n < |s| && s[n] == EOS && forall k :: 0 <= k < n ==> s[k] != EOS
  }

  /** No two slashes in a row in s[start..end). */
  ghost predicate NoDoubleSlash(s: seq<char>, start: nat, end: nat)
    requires end <= |s|
  {
    forall k :: start < k < end ==> !(s[k - 1] == '/' && s[k] == '/')
  }

  /** The saved output positions: ascending, none below lo and none past the write pointer. */
  ghost predicate Ascending(stack: seq<nat>, lo: nat, hi: nat) {
    (forall j :: 0 <= j < |stack| ==> lo <= stack[j] <= hi)
    && (forall i, j :: 0 <= i < j < |stack| ==> stack[i] <= stack[j])
  }

  /** Where the rewritten part starts: after "scheme://" for an IRI, else at 0. */
  function IriStart(sl: nat): nat {
    if sl > 0 then sl + 3 else 0
  }

  /**
   * The state of the rewriting loop.  The unread input is intact, the
   * write pointer is at most one ahead of the read pointer (only just after
   * the leading '/' of an absolute path is written over itself), the output
   * so far has no NUL and no "//", and it starts with '/' exactly when the
   * input did.
   */
  ghost predicate Inv(s: seq<char>, orig: seq<char>, n: nat, start: nat, inp: nat, outp: nat, stack: seq<nat>)
  {
    CStr(orig, n) && |s| == |orig|
    && start <= inp <= n && start <= outp <= inp + 1
    && (outp == inp + 1 ==> inp == start && orig[start] == '/')
    && s[inp..] == orig[inp..] && s[..start] == orig[..start]
    && (start > 0 ==> orig[start - 1] == '/')
    && (forall k :: start <= k < outp ==> s[k] != EOS)
    && NoDoubleSlash(s, start, outp)
    && (orig[start] == '/' ==> outp > start && s[start] == '/')
    && (orig[start] != '/' && outp > start ==> s[start] != '/')
    && Ascending(stack, if orig[start] == '/' then start + 1 else start, outp)
  }

  /*****************************************************************
   * The normal form
   *****************************************************************/

  /** The component that ends just before e is ".". */
  ghost predicate DotEndsAt(s: seq<char>, start: nat, e: nat)
    requires start < e <= |s|
  {
    s[e - 1] == '.' && (e - 1 == start || s[e - 2] == '/')
  }

  /** The component that ends just before e is "..". */
  ghost predicate DotDotEndsAt(s: seq<char>, start: nat, e: nat)
    requires start + 1 < e <= |s|
  {
    s[e - 1] == '.' && s[e - 2] == '.' && (e - 2 == start || s[e - 3] == '/')
  }

  /** s[start..b] is "../" repeated. */
  ghost predicate UpRun(s: seq<char>, start: nat, b: nat)
    requires start <= b <= |s|
    decreases b
  {
    b == start
    || (start + 3 <= b && s[b - 3] == '.' && s[b - 2] == '.' && s[b - 1] == '/' && UpRun(s, start, b - 3))
  }

  /** The component ending just before e is not ".", and it is ".." only after nothing but "../". */
  ghost predicate CompOk(s: seq<char>, start: nat, e: nat)
    requires start < e <= |s|
  {
    !DotEndsAt(s, start, e) && (start + 1 < e && DotDotEndsAt(s, start, e) ==> UpRun(s, start, e - 2))
  }

  /** Every component of s[start..outp] that a '/' ends is tidy. */
  ghost predicate Tidy(s: seq<char>, start: nat, outp: nat)
    requires start <= outp <= |s|
    decreases outp
  {
    outp <= start + 1
    || (Tidy(s, start, outp - 1) && (s[outp - 1] == '/' ==> CompOk(s, start, outp - 1)))
  }

  /**
   * The normal form of the path s[start..len]: no "." component unless the
   * whole path is ".", and ".." only in a leading run of "../" (so never in
   * an absolute path).  With NoDoubleSlash there is no empty component
   * either.
   */
  ghost predicate Canonical(s: seq<char>, start: nat, len: nat)
    requires start <= len <= |s|
  {
    Tidy(s, start, len)
    && (start < len ==> CompOk(s, start, len) || (len == start + 1 && s[start] == '.'))
  }

  /**
   * The rewritten buffer: no longer, untouched past the old string and
   * before start, no "//", as absolute as before, and in normal form.
   */
  ghost predicate Done(s: seq<char>, orig: seq<char>, n: nat, start: nat)
  {
    var holds := CStr(orig, n) && |s| == |orig| && EOS in s
      && start <= StrLen(s) <= n
      && s[n + 1..] == orig[n + 1..] && s[..start] == orig[..start]
      && NoDoubleSlash(s, start, StrLen(s))
      && (s[start] == '/' <==> orig[start] == '/')
      && Canonical(s, start, StrLen(s));
    holds
  }

  lemma DoneAt(s: seq<char>, orig: seq<char>, n: nat, start: nat, r: nat)
    requires CStr(orig, n) && |s| == |orig|
    requires start <= r <= n && s[r] == EOS
    requires forall k :: start <= k < r ==> s[k] != EOS
    requires s[n + 1..] == orig[n + 1..] && s[..start] == orig[..start]
    requires NoDoubleSlash(s, start, r)
    requires s[start] == '/' <==> orig[start] == '/'
    requires Canonical(s, start, r)
    ensures Done(s, orig, n, start)
  {
    assert forall k :: 0 <= k < start ==> s[k] == orig[k];
    assert EOS in s by { assert s[r] == EOS; }
    assert StrLen(s) == r;
  }

  /** A run of "../" depends only on its own cells. */
  lemma {:induction false} UpRunFrame(s: seq<char>, t: seq<char>, start: nat, b: nat)
    requires start <= b <= |s| == |t|
    requires forall k :: start <= k < b ==> s[k] == t[k]
    requires UpRun(s, start, b)
    ensures UpRun(t, start, b)
    decreases b
  {
    if b != start {
      UpRunFrame(s, t, start, b - 3);
    }
  }

  /** Whether a component is tidy depends only on the cells before its end. */
  lemma CompOkFrame(s: seq<char>, t: seq<char>, start: nat, e: nat)
    requires start < e <= |s| == |t|
    requires forall k :: 0 <= k < e ==> s[k] == t[k]
    requires CompOk(s, start, e)
    ensures CompOk(t, start, e)
  {
    if start + 1 < e && DotDotEndsAt(t, start, e) {
      UpRunFrame(s, t, start, e - 2);
    }
  }

  /** The tidiness of what lies below outp depends only on those cells. */
  lemma {:induction false} FrameBelow(s: seq<char>, t: seq<char>, start: nat, outp: nat)
    requires start <= outp <= |s| == |t|
    requires forall k :: 0 <= k < outp ==> s[k] == t[k]
    requires Tidy(s, start, outp)
    ensures Tidy(t, start, outp)
    decreases outp
  {
    if outp > start + 1 {
      FrameBelow(s, t, start, outp - 1);
      if t[outp - 1] == '/' {
        CompOkFrame(s, t, start, outp - 1);
      }
    }
  }

  /** Each component a '/' ends below outp is tidy. */
  lemma {:induction false} TidyAt(s: seq<char>, start: nat, outp: nat, e: nat)
    requires start < e < outp <= |s| && Tidy(s, start, outp) && s[e] == '/'
    ensures CompOk(s, start, e)
    decreases outp
  {
    if e < outp - 1 {
      TidyAt(s, start, outp - 1, e);
    }
  }

  /** A tidy output is tidy up to any earlier point. */
  lemma {:induction false} TidyPrefix(s: seq<char>, start: nat, p: nat, outp: nat)
    requires start <= p <= outp <= |s| && Tidy(s, start, outp)
    ensures Tidy(s, start, p)
    decreases outp
  {
    if p < outp {
      TidyPrefix(s, start, p, outp - 1);
    }
  }

  /*****************************************************************
   * The leading "/../" and "./" that are skipped
   *****************************************************************/

  /** Skip leading "/.." components that are followed by '/' (the root's parent is the root). */
  function SkipRootDotDot(s: seq<char>, i: nat): (j: nat)
    ensures i <= j
    decreases |s| - i
  {
    if i + 3 < |s| && s[i] == '/' && s[i + 1] == '.' && s[i + 2] == '.' && s[i + 3] == '/'
    then SkipRootDotDot(s, i + 3) else i
  }

  /** Skip a run of '/'. */
  function SkipSlashes(s: seq<char>, i: nat): (j: nat)
    ensures i <= j
    decreases |s| - i
  {
    if i < |s| && s[i] == '/' then SkipSlashes(s, i + 1) else i
  }

  /**
   * Skip leading "./", each with the slashes that follow it, so that what
   * is left of a relative path does not start with '/'.
   */
  function SkipDotSlash(s: seq<char>, i: nat): (j: nat)
    ensures i <= j
    ensures !(j + 1 < |s| && s[j] == '.' && s[j + 1] == '/')
    decreases |s| - i
  {
    if i + 1 < |s| && s[i] == '.' && s[i + 1] == '/' then SkipDotSlash(s, SkipSlashes(s, i + 2)) else i
  }

  /** Where reading starts once both prefixes are skipped. */
  function StripLeading(s: seq<char>, start: nat): nat {
    SkipDotSlash(s, SkipRootDotDot(s, start))
  }

  /** The "/.." skip ends on a '/' when it starts on one. */
  lemma {:induction false} SkipRootDotDotKeepsSlash(s: seq<char>, i: nat)
    requires i < |s| && s[i] == '/'
    ensures SkipRootDotDot(s, i) < |s| && s[SkipRootDotDot(s, i)] == '/'
    decreases |s| - i
  {
    if i + 3 < |s| && s[i] == '/' && s[i + 1] == '.' && s[i + 2] == '.' && s[i + 3] == '/' {
      SkipRootDotDotKeepsSlash(s, i + 3);
    }
  }

  /** Skipping slashes stops before the NUL, on a character that is not '/'. */
  lemma {:induction false} SkipSlashesStops(s: seq<char>, n: nat, i: nat)
    requires CStr(s, n) && i <= n
    ensures SkipSlashes(s, i) <= n && s[SkipSlashes(s, i)] != '/'
    decreases n - i
  {
    if s[i] == '/' {
      SkipSlashesStops(s, n, i + 1);
    }
  }

  /** From a character that is not '/', skipping "./" ends on one that is not '/' either. */
  lemma {:induction false} SkipDotSlashStops(s: seq<char>, n: nat, i: nat)
    requires CStr(s, n) && i <= n && s[i] != '/'
    ensures SkipDotSlash(s, i) <= n && s[SkipDotSlash(s, i)] != '/'
    decreases n - i
  {
    if i + 1 < |s| && s[i] == '.' && s[i + 1] == '/' {
      assert i + 1 < n;
      SkipSlashesStops(s, n, i + 2);
      SkipDotSlashStops(s, n, SkipSlashes(s, i + 2));
    }
  }

  /**
   * After the skips the path still starts with '/' exactly when it did, so
   * the root test `in[0] == '/'` makes the output absolute exactly when the
   * path is.
   */
  lemma StripLeadingKeepsAbsoluteness(s: seq<char>, n: nat, start: nat)
    requires CStr(s, n) && start <= n
    ensures StripLeading(s, start) <= n
    ensures s[StripLeading(s, start)] == '/' <==> s[start] == '/'
  {
    if s[start] == '/' {
      SkipRootDotDotKeepsSlash(s, start);
      SkipRootDotDotBounded(s, n, start);
    } else {
      SkipDotSlashStops(s, n, start);
    }
  }

  /** The "/.." skip stays within the string. */
  lemma {:induction false} SkipRootDotDotBounded(s: seq<char>, n: nat, i: nat)
    requires CStr(s, n) && i <= n
    ensures SkipRootDotDot(s, i) <= n
    decreases |s| - i
  {
    if i + 3 < |s| && s[i] == '/' && s[i + 1] == '.' && s[i + 2] == '.' && s[i + 3] == '/' {
      assert i + 3 < n;
      SkipRootDotDotBounded(s, n, i + 3);
    }
  }

  /** The "./" skip as written: the slashes after a skipped "./" stay. */
  function SkipDotSlashAsWritten(s: seq<char>, i: nat): (j: nat)
    ensures i <= j
    decreases |s| - i
  {
    if i + 1 < |s| && s[i] == '.' && s[i + 1] == '/' then SkipDotSlashAsWritten(s, i + 2) else i
  }

  /**
   * As written, the '/' that makes the output absolute is written when
   * the input, after the skipped prefixes, starts with '/'.
   */
  predicate RootSlashAsWritten(s: seq<char>, start: nat) {
    var i := SkipDotSlashAsWritten(s, SkipRootDotDot(s, start));
    i < |s| && s[i] == '/'
  }

  /**
   * ".//x" is relative, but as written, once "./" is skipped it starts with
   * '/', so it becomes "/x"; the corrected skip goes on to the 'x'.
   */
  lemma DotSlashSlashMadeAbsolute()
    ensures RootSlashAsWritten(['.', '/', '/', 'x', EOS], 0)
    ensures StripLeading(['.', '/', '/', 'x', EOS], 0) == 3
  {
    var s := ['.', '/', '/', 'x', EOS];
    assert SkipRootDotDot(s, 0) == 0;
    assert SkipDotSlashAsWritten(s, 2) == 2;
    assert SkipSlashes(s, 3) == 3;
    assert SkipSlashes(s, 2) == 3;
    assert SkipDotSlash(s, 3) == 3;
  }

  /*****************************************************************
   * The two other places the code as written goes wrong
   *****************************************************************/

  /**
   * The test for a `..` that follows `..` as written: out[-1], out[-2] and
   * out[-3] are read before out-2 is compared with start; None when that
   * reads before the buffer.
   */
  function DotDotGuardAsWritten(s: seq<char>, outp: int, start: int): (r: Option<bool>)
    requires outp <= |s|
  {
    if outp - 1 < 0 then None
    else if s[outp - 1] != '.' then Some(false)
    else if outp - 2 < 0 then None
    else if s[outp - 2] != '.' then Some(false)
    else if outp - 2 == start then Some(true)
    else if outp - 3 < 0 then None
    else Some(s[outp - 3] == '/')
  }

  /** The corrected test: the two characters before outp must exist before they are read. */
  predicate DotDotBefore(s: seq<char>, outp: nat, start: nat)
    requires outp <= |s|
  {
    outp >= 2 && s[outp - 1] == '.' && s[outp - 2] == '.'
    && (outp - 2 == start || (outp >= 3 && s[outp - 3] == '/'))
  }

  /**
   * The output ends in "../" whose ".." is a whole component: after a pop
   * back past a kept `..`, the `..` that follows must be kept too.
   */
  predicate DotDotSlashBefore(s: seq<char>, outp: nat, start: nat)
    requires outp <= |s|
  {
    outp >= start + 3 && s[outp - 1] == '/' && s[outp - 2] == '.' && s[outp - 3] == '.'
    && (outp - 3 == start || (outp >= 4 && s[outp - 4] == '/'))
  }

  /**
   * In "a/../../b" the first `..` pops the output back to position 0, and
   * the test for the second reads out[-1], before the buffer.
   */
  lemma DotDotGuardReadsBeforeBuffer()
    ensures DotDotGuardAsWritten(['a', '/', '.', '.', '/', '.', '.', '/', 'b', EOS], 0, 0).None?
  {
  }

  /** Wherever the written test stays inside the buffer, the corrected one agrees with it. */
  lemma DotDotGuardAgrees(s: seq<char>, outp: nat, start: nat)
    requires outp <= |s|
    requires DotDotGuardAsWritten(s, outp, start).Some?
    ensures DotDotGuardAsWritten(s, outp, start).value == DotDotBefore(s, outp, start)
  {
  }

  /**
   * The end of a '/' step as written: skip the '/' if there is one, then
   * append a '/' unless the output already ends in one -- even when the
   * read pointer is on the terminating NUL.
   */
  function SlashTailAsWritten(s: seq<char>, inp: nat, outp: nat): (r: (seq<char>, nat, nat))
    requires inp < |s| && outp < |s|
  {
    var inp1 := if s[inp] != EOS then inp + 1 else inp;
    if outp > 0 && s[outp - 1] != '/' then (s[outp := '/'], inp1, outp + 1) else (s, inp1, outp)
  }

  /**
   * "../..": both dots are copied, the second `..` is kept by copying
   * "/.." over itself, which leaves both pointers on the NUL at 5; the
   * written tail then puts a '/' there, and the loop reads on past the
   * string.
   */
  lemma DotDotAtEndOverwritesNul()
    ensures var s := ['.', '.', '/', '.', '.', EOS];
            StrLen(s) == 5 && DotDotBefore(s, 2, 0)
            && SlashTailAsWritten(s, 5, 5).0[5] == '/'
            && EOS !in SlashTailAsWritten(s, 5, 5).0
  {
    var s := ['.', '.', '/', '.', '.', EOS];
    assert StrLen(s[5..]) == 0;
    assert StrLen(s[4..]) == 1 + StrLen(s[4..][1..]) && s[4..][1..] == s[5..];
    assert StrLen(s[3..]) == 1 + StrLen(s[3..][1..]) && s[3..][1..] == s[4..];
    assert StrLen(s[2..]) == 1 + StrLen(s[2..][1..]) && s[2..][1..] == s[3..];
    assert StrLen(s[1..]) == 1 + StrLen(s[1..][1..]) && s[1..][1..] == s[2..];
    assert s[0..] == s;
    var t := SlashTailAsWritten(s, 5, 5).0;
    assert t == ['.', '.', '/', '.', '.', '/'];
  }

  datatype Option<T> = None | Some(value: T)


  /*****************************************************************
   * The state of the rewriting loop, with the normal form
   *****************************************************************/

  /** Where the first component is written: after the root '/' if there is one. */
  function Base(orig: seq<char>, start: nat): nat
    requires start < |orig|
  {
    if orig[start] == '/' then start + 1 else start
  }

  /** p starts a component of the output: it is the start or it follows a '/'. */
  ghost predicate Boundary(s: seq<char>, start: nat, p: nat) {
    p == start || (0 < p <= |s| && s[p - 1] == '/')
  }

  /** A character that ends a component: '/' or the NUL. */
  predicate IsSep(c: char) {
    c == '/' || c == EOS
  }

  /**
   * The component being built is ".", ended by sep: s[cb..outp] is the part
   * written so far and the input goes on from inp.
   */
  ghost predicate BuildsDot(s: seq<char>, orig: seq<char>, cb: nat, outp: nat, inp: nat, sep: char)
    requires cb <= outp <= |s| && inp < |orig|
  {
    (outp == cb && inp + 1 < |orig| && orig[inp] == '.' && orig[inp + 1] == sep)
    || (outp == cb + 1 && s[cb] == '.' && orig[inp] == sep)
  }

  /** The component being built is "..". */
  ghost predicate BuildsDotDot(s: seq<char>, orig: seq<char>, cb: nat, outp: nat, inp: nat)
    requires cb <= outp <= |s| && inp < |orig|
  {
    (outp == cb && inp + 2 < |orig| && orig[inp] == '.' && orig[inp + 1] == '.' && IsSep(orig[inp + 2]))
    || (outp == cb + 1 && inp + 1 < |orig| && s[cb] == '.' && orig[inp] == '.' && IsSep(orig[inp + 1]))
    || (outp == cb + 2 && s[cb] == '.' && s[cb + 1] == '.' && IsSep(orig[inp]))
  }

  /**
   * The component being built starts at cb in the output; once the rest of
   * it is copied it is not "." unless it is the whole path, and it is ".."
   * only after nothing but "../".
   */
  ghost predicate Pending(s: seq<char>, orig: seq<char>, n: nat, start: nat, cb: nat, outp: nat, inp: nat)
  {
    CStr(orig, n) && inp <= n && start <= cb <= outp <= |s|
    && Boundary(s, start, cb)
    && (forall k :: cb <= k < outp ==> s[k] != '/')
    && !BuildsDot(s, orig, cb, outp, inp, '/')
    && (BuildsDot(s, orig, cb, outp, inp, EOS) ==> cb == start)
    && (BuildsDotDot(s, orig, cb, outp, inp) ==> UpRun(s, start, cb))
  }

  /**
   * The saved positions: the first is where the first component starts, the
   * stack is empty only when nothing has been written after the root, and
   * while the input goes on each saved position starts a component.
   */
  ghost predicate StackShape(s: seq<char>, orig: seq<char>, start: nat, inp: nat, outp: nat, stack: seq<nat>)
    requires start < |orig| && inp < |orig|
  {
    (|stack| == 0 ==> outp == Base(orig, start))
    && (|stack| > 0 ==> stack[0] == Base(orig, start))
    && (orig[inp] != EOS ==> forall j :: 0 <= j < |stack| ==> Boundary(s, start, stack[j]))
  }

  /**
   * Inv, with the output so far in normal form and the component being
   * built on its way to it.  The parts are bound to one name, so that the
   * methods pass the state on as a single fact; TidiedIntro puts it
   * together from its parts.
   */
  ghost predicate Tidied(s: seq<char>, orig: seq<char>, n: nat, start: nat, inp: nat, outp: nat,
                         stack: seq<nat>, cb: nat)
  {
    var holds := Inv(s, orig, n, start, inp, outp, stack)
      && StackShape(s, orig, start, inp, outp, stack)
      && Tidy(s, start, outp)
      && Pending(s, orig, n, start, cb, outp, inp);
    holds
  }

  lemma TidiedIntro(s: seq<char>, orig: seq<char>, n: nat, start: nat, inp: nat, outp: nat,
                    stack: seq<nat>, cb: nat)
    requires Inv(s, orig, n, start, inp, outp, stack)
    requires StackShape(s, orig, start, inp, outp, stack)
    requires Tidy(s, start, outp)
    requires Pending(s, orig, n, start, cb, outp, inp)
    ensures Tidied(s, orig, n, start, inp, outp, stack, cb)
  {
  }

  /** The last '/' of the run of slashes that starts at i. */
  ghost function SlashRunEnd(s: seq<char>, n: nat, i: nat): (j: nat)
    requires CStr(s, n) && i <= n && s[i] == '/'
    ensures i <= j < n && s[j] == '/' && s[j + 1] != '/'
    ensures forall k :: i <= k <= j ==> s[k] == '/'
    decreases n - i
  {
    if s[i + 1] == '/' then SlashRunEnd(s, n, i + 1) else i
  }

  /** The rules of the `again:` block, as they apply at the last '/' of a run. */
  datatype Rule = DropDot | EndDot | KeepUp | KeepUpAfterPop | PopUp | DropRootUp | NoRule

  /**
   * The rule that applies at i: drop "/./", end at a trailing "/.", keep a
   * `..` that follows `..` (also once a pop has left the output just after
   * "../"), pop a component for "name/..", drop "/.." right after the root,
   * or none.
   */
  ghost function RuleAt(s: seq<char>, i: nat, outp: nat, stackEmpty: bool, start: nat): Rule
    requires i + 1 < |s| && outp <= |s| && start < |s|
  {
    if s[i + 1] != '.' || i + 2 >= |s| then NoRule
    else if s[i + 2] == '/' then DropDot
    else if s[i + 2] == EOS then EndDot
    else if s[i + 2] != '.' || i + 3 >= |s| || !(s[i + 3] == '/' || s[i + 3] == EOS) then NoRule
    else if DotDotBefore(s, outp, start) then KeepUp
    else if DotDotSlashBefore(s, outp, start) then KeepUpAfterPop
    else if !stackEmpty then PopUp
    else if s[start] == '/' && outp == start + 1 then DropRootUp
    else NoRule
  }

  /**
   * The rules as written: the keep test looks only for ".." just before
   * the output, so after a pop (the output then ends in '/') a `..` that
   * follows a kept `..` falls through to the pop.
   */
  ghost function RuleAsWritten(s: seq<char>, i: nat, outp: nat, stackEmpty: bool, start: nat): (r: Rule)
    requires i + 1 < |s| && outp <= |s| && start < |s|
    ensures r != KeepUpAfterPop
    ensures RuleAt(s, i, outp, stackEmpty, start) != KeepUpAfterPop ==> r == RuleAt(s, i, outp, stackEmpty, start)
  {
    var rule := RuleAt(s, i, outp, stackEmpty, start);
    if rule != KeepUpAfterPop then rule
    else if !stackEmpty then PopUp
    else if s[start] == '/' && outp == start + 1 then DropRootUp
    else NoRule
  }

  /**
   * "../a/../..": the first `..` pops "a/" and leaves the output at 3, just
   * after "../".  As written the second `..` is not kept, since out[-1] is
   * '/', and it pops back to position 0, so the result is "", which names
   * nothing, where the path names "../..".  The corrected rules keep it.
   */
  lemma PopPastKeptDotDot()
    ensures var s := ['.', '.', '/', 'a', '/', '.', '.', '/', '.', '.', EOS];
            RuleAsWritten(s, 4, 4, false, 0) == PopUp
            && RuleAsWritten(s, 7, 3, false, 0) == PopUp
            && RuleAt(s, 7, 3, false, 0) == KeepUpAfterPop
            && Resolve(false, s[..10]) == ["..", ".."] && Resolve(false, []) == []
  {
    var s := ['.', '.', '/', 'a', '/', '.', '.', '/', '.', '.', EOS];
    PopPastRules(s);
    assert s[..10] == ".." + "/" + "a" + "/" + ".." + "/" + "..";
    UpUpMeaning("..", "a");
  }

  /** At 4 no `..` stands before the output, at 3 "../" does, and only the corrected rules see it. */
  lemma PopPastRules(s: seq<char>)
    requires s == ['.', '.', '/', 'a', '/', '.', '.', '/', '.', '.', EOS]
    ensures RuleAsWritten(s, 4, 4, false, 0) == PopUp
    ensures RuleAsWritten(s, 7, 3, false, 0) == PopUp
    ensures RuleAt(s, 7, 3, false, 0) == KeepUpAfterPop
  {
    assert !DotDotBefore(s, 4, 0) && !DotDotSlashBefore(s, 4, 0);
    assert !DotDotBefore(s, 3, 0) && DotDotSlashBefore(s, 3, 0);
  }

  /** "../c/../.." names "../..", for any name c. */
  lemma UpUpMeaning(up: string, c: string)
    requires up == ".." && IsName(c)
    ensures Resolve(false, up + "/" + c + "/" + up + "/" + up) == [up, up]
  {
    var w := Walk([up], []);
    assert Read(false, Start, up + "/") == w by {
      ReadAppend(false, Start, up, "/");
      ReadName(false, Start, up);
      ReadSlash(false, Walk([], up));
    }
    var mid := c + "/" + up + "/";
    assert Read(false, w, mid) == w by {
      NameUp(false, w, c, []);
      assert c + [] + "/../" == mid;
      ReadSlash(false, w);
    }
    ReadName(false, w, up);
    assert up + "/" + c + "/" + up + "/" + up == (up + "/") + (mid + up);
    ReadAppend(false, Start, up + "/", mid + up);
    ReadAppend(false, w, mid, up);
  }

  /*****************************************************************
   * How each step keeps the state
   *****************************************************************/

  /** Once the input component ends, the one built at cb is tidy. */
  lemma PendingCompOk(s: seq<char>, orig: seq<char>, n: nat, start: nat, cb: nat, outp: nat, inp: nat)
    requires Pending(s, orig, n, start, cb, outp, inp) && (orig[inp] == '/' || orig[inp] == EOS)
    requires start < outp
    ensures CompOk(s, start, outp) || (orig[inp] == EOS && outp == start + 1 && s[start] == '.')
  {
    if DotEndsAt(s, start, outp) {
      assert cb == outp - 1;
    }
    if start + 1 < outp && DotDotEndsAt(s, start, outp) {
      assert cb == outp - 2;
    }
  }

  /** Copying a character of a component keeps the state. */
  lemma CopyKeeps(s: seq<char>, t: seq<char>, orig: seq<char>, n: nat, start: nat,
                  inp: nat, outp: nat, stack: seq<nat>, cb: nat)
    requires Tidied(s, orig, n, start, inp, outp, stack, cb) && |stack| > 0
    requires s[inp] != '/' && s[inp] != EOS && t == s[outp := s[inp]]
    ensures Tidied(t, orig, n, start, inp + 1, outp + 1, stack, cb)
  {
    assert outp <= inp;
    assert t[inp + 1..] == orig[inp + 1..] by {
      assert s[inp + 1..] == orig[inp + 1..] by { assert s[inp..][1..] == s[inp + 1..]; }
    }
    FrameBelow(s, t, start, outp);
    assert t[outp] == orig[inp];
    assert BuildsDot(t, orig, cb, outp + 1, inp + 1, '/') == BuildsDot(s, orig, cb, outp, inp, '/');
    assert BuildsDot(t, orig, cb, outp + 1, inp + 1, EOS) == BuildsDot(s, orig, cb, outp, inp, EOS);
    assert BuildsDotDot(t, orig, cb, outp + 1, inp + 1) == BuildsDotDot(s, orig, cb, outp, inp);
    if UpRun(s, start, cb) {
      UpRunFrame(s, t, start, cb);
    }
    TidiedIntro(t, orig, n, start, inp + 1, outp + 1, stack, cb);
  }

  /** Skipping input that starts and ends on a separator keeps the state. */
  lemma DropKeeps(s: seq<char>, orig: seq<char>, n: nat, start: nat,
                  inp: nat, inp2: nat, outp: nat, stack: seq<nat>, cb: nat)
    requires Tidied(s, orig, n, start, inp, outp, stack, cb) && s[inp] == '/'
    requires inp < inp2 <= n && (orig[inp2] == '/' || orig[inp2] == EOS)
    ensures Tidied(s, orig, n, start, inp2, outp, stack, cb)
  {
    assert !(outp == cb + 1 && s[cb] == '.');
    assert s[inp2..] == orig[inp2..] by { assert s[inp..][inp2 - inp..] == s[inp2..]; }
    TidiedIntro(s, orig, n, start, inp2, outp, stack, cb);
  }

  /** strncpy(out, in, 3) of "/.." after a `..`: a third `..` joins the leading run. */
  lemma KeepKeeps(s: seq<char>, t: seq<char>, orig: seq<char>, n: nat, start: nat,
                  inp: nat, outp: nat, stack: seq<nat>, cb: nat)
    requires Tidied(s, orig, n, start, inp, outp, stack, cb)
    requires s[inp] == '/' && inp + 3 <= n && s[inp + 1] == '.' && s[inp + 2] == '.'
    requires s[inp + 3] == '/' || s[inp + 3] == EOS
    requires DotDotBefore(s, outp, start)
    requires t == s[outp := '/'][outp + 1 := '.'][outp + 2 := '.']
    ensures Tidied(t, orig, n, start, inp + 3, outp + 3, stack, outp + 1)
    ensures UpRun(t, start, outp + 1)
  {
    KeepShape(s, t, orig, n, start, inp, outp, stack);
    assert cb == outp - 2;
    assert BuildsDotDot(s, orig, cb, outp, inp);
    FrameBelow(s, t, start, outp);
    UpRunFrame(s, t, start, outp - 2);
    assert UpRun(t, start, outp + 1);
    assert CompOk(t, start, outp);
    assert Tidy(t, start, outp + 1);
    assert Tidy(t, start, outp + 2);
    assert !DotEndsAt(t, start, outp);
    TidiedIntro(t, orig, n, start, inp + 3, outp + 3, stack, outp + 1);
  }

  /** Writing "/.." after a `..` keeps Inv and the shape of the stack. */
  lemma KeepShape(s: seq<char>, t: seq<char>, orig: seq<char>, n: nat, start: nat,
                  inp: nat, outp: nat, stack: seq<nat>)
    requires Inv(s, orig, n, start, inp, outp, stack) && StackShape(s, orig, start, inp, outp, stack)
    requires s[inp] == '/' && inp + 3 <= n && s[inp + 1] == '.' && s[inp + 2] == '.'
    requires s[inp + 3] == '/' || s[inp + 3] == EOS
    requires DotDotBefore(s, outp, start)
    requires t == s[outp := '/'][outp + 1 := '.'][outp + 2 := '.']
    ensures Inv(t, orig, n, start, inp + 3, outp + 3, stack)
    ensures StackShape(t, orig, start, inp + 3, outp + 3, stack)
    ensures start + 2 <= outp <= inp
  {
    assert start + 2 <= outp by {
      if start > 0 { assert s[start - 1] == '/'; }
    }
    assert outp <= inp;
    assert s[inp + 3..] == orig[inp + 3..] by {
      assert s[inp..][3..] == s[inp + 3..];
      assert orig[inp..][3..] == orig[inp + 3..];
    }
    assert t[inp + 3..] == s[inp + 3..];
  }

  /** "name/..": going back to the last saved position keeps the state. */
  lemma PopKeeps(s: seq<char>, orig: seq<char>, n: nat, start: nat,
                 inp: nat, outp: nat, stack: seq<nat>, cb: nat)
    requires Tidied(s, orig, n, start, inp, outp, stack, cb) && |stack| > 0
    requires s[inp] == '/' && inp + 3 <= n && s[inp + 1] == '.' && s[inp + 2] == '.'
    requires s[inp + 3] == '/' || s[inp + 3] == EOS
    ensures var p := stack[|stack| - 1];
            Tidied(s, orig, n, start, inp + 3, p, stack[..|stack| - 1], p)
  {
    var p := stack[|stack| - 1];
    assert Boundary(s, start, p);
    TidyPrefix(s, start, p, outp);
    assert s[inp + 3..] == orig[inp + 3..] by {
      assert s[inp..][3..] == s[inp + 3..];
    }
    var st := stack[..|stack| - 1];
    assert forall j :: 0 <= j < |st| ==> st[j] == stack[j];
    TidiedIntro(s, orig, n, start, inp + 3, p, st, p);
  }

  /** "name/.." at the end: the '/' before the popped component is cut off too. */
  lemma PopDone(s: seq<char>, t: seq<char>, orig: seq<char>, n: nat, start: nat,
                inp: nat, outp: nat, stack: seq<nat>, cb: nat)
    requires Tidied(s, orig, n, start, inp, outp, stack, cb) && |stack| > 0
    requires s[inp] == '/'
    requires stack[|stack| - 1] > start + 1
    requires t == s[stack[|stack| - 1] - 1 := EOS]
    ensures Done(t, orig, n, start)
  {
    var p := stack[|stack| - 1];
    assert Boundary(s, start, p);
    TidyAt(s, start, outp, p - 1);
    TidyPrefix(s, start, p - 1, outp);
    FrameBelow(s, t, start, p - 1);
    CompOkFrame(s, t, start, p - 1);
    assert s[n + 1..] == orig[n + 1..] by {
      assert s[inp..][n + 1 - inp..] == s[n + 1..];
    }
    DoneAt(t, orig, n, start, p - 1);
  }

  /** The string ends at outp once the input component is over. */
  lemma FinishAt(s: seq<char>, t: seq<char>, orig: seq<char>, n: nat, start: nat,
                 inp: nat, outp: nat, stack: seq<nat>, cb: nat)
    requires Tidied(s, orig, n, start, inp, outp, stack, cb)
    requires orig[inp] == '/' || orig[inp] == EOS
    requires t == s[outp := EOS]
    ensures Done(t, orig, n, start)
  {
    assert outp <= n;
    FrameBelow(s, t, start, outp);
    if start < outp {
      PendingCompOk(s, orig, n, start, cb, outp, inp);
      if CompOk(s, start, outp) {
        CompOkFrame(s, t, start, outp);
      }
    }
    assert s[n + 1..] == orig[n + 1..] by {
      assert s[inp..][n + 1 - inp..] == s[n + 1..];
    }
    DoneAt(t, orig, n, start, outp);
  }

  /** The end of a '/' step: the slash is written unless the output ends in one, and the position saved. */
  lemma SlashTailKeeps(s: seq<char>, t: seq<char>, orig: seq<char>, n: nat, start: nat,
                       i: nat, outp: nat, stack: seq<nat>, cb: nat, o: nat)
    requires Tidied(s, orig, n, start, i, outp, stack, cb)
    requires s[i] == '/' && s[i + 1] != '/' && RuleAt(s, i, outp, |stack| == 0, start) == NoRule
    requires var w := outp > 0 && s[outp - 1] != '/';
             (w && t == s[outp := '/'] && o == outp + 1) || (!w && t == s && o == outp)
    ensures Tidied(t, orig, n, start, i + 1, o, stack + [o], o)
  {
    SlashTailShape(s, t, orig, n, start, i, outp, stack, o);
    var w := outp > 0 && s[outp - 1] != '/';
    FrameBelow(s, t, start, outp);
    if w {
      PendingCompOk(s, orig, n, start, cb, outp, i);
      CompOkFrame(s, t, start, outp);
      assert Tidy(t, start, o);
    }
    assert !BuildsDot(t, orig, o, o, i + 1, '/') && !BuildsDot(t, orig, o, o, i + 1, EOS) by {
      assert orig[i + 1] == s[i + 1];
    }
    if BuildsDotDot(t, orig, o, o, i + 1) {
      assert orig[i + 1] == s[i + 1] && orig[i + 2] == s[i + 2] && orig[i + 3] == s[i + 3];
      assert o == start;
    }
    TidiedIntro(t, orig, n, start, i + 1, o, stack + [o], o);
  }

  /** The tail of a '/' step keeps Inv and the shape of the stack. */
  lemma SlashTailShape(s: seq<char>, t: seq<char>, orig: seq<char>, n: nat, start: nat,
                       i: nat, outp: nat, stack: seq<nat>, o: nat)
    requires Inv(s, orig, n, start, i, outp, stack) && StackShape(s, orig, start, i, outp, stack)
    requires s[i] == '/'
    requires var w := outp > 0 && s[outp - 1] != '/';
             (w && t == s[outp := '/'] && o == outp + 1) || (!w && t == s && o == outp)
    ensures Inv(t, orig, n, start, i + 1, o, stack + [o]) && StackShape(t, orig, start, i + 1, o, stack + [o])
    ensures Boundary(t, start, o) && (|stack| == 0 ==> o == outp)
  {
    var w := outp > 0 && s[outp - 1] != '/';
    assert w ==> start < outp <= i by {
      if start > 0 { assert s[start - 1] == '/'; }
    }
    assert !w ==> outp == start || s[outp - 1] == '/';
    assert t[i + 1..] == orig[i + 1..] by {
      assert s[i..][1..] == s[i + 1..];
    }
    var st := stack + [o];
    assert forall j :: 0 <= j < |stack| ==> st[j] == stack[j];
  }

  /** At the NUL the position is saved without writing anything. */
  lemma PushAtEnd(s: seq<char>, orig: seq<char>, n: nat, start: nat,
                  inp: nat, outp: nat, stack: seq<nat>, cb: nat)
    requires Tidied(s, orig, n, start, inp, outp, stack, cb) && orig[inp] == EOS
    ensures Tidied(s, orig, n, start, inp, outp, stack + [outp], cb)
  {
    var st := stack + [outp];
    assert forall j :: 0 <= j < |stack| ==> st[j] == stack[j];
    TidiedIntro(s, orig, n, start, inp, outp, st, cb);
  }

  /** The state once the leading prefixes are skipped and the root written. */
  lemma Initial(orig: seq<char>, n: nat, start: nat, inp: nat)
    requires CStr(orig, n) && start <= inp <= n && inp == StripLeading(orig, start)
    requires start > 0 ==> orig[start - 1] == '/'
    requires orig[inp] == '/' <==> orig[start] == '/'
    ensures var b := Base(orig, start);
            Tidied(orig, orig, n, start, inp, b, [b], b)
  {
    var b := Base(orig, start);
    TidiedIntro(orig, orig, n, start, inp, b, [b], b);
  }

  /*****************************************************************
   * What the output means
   *****************************************************************/

  /** No '/' in s[lo..hi). */
  ghost predicate NoSlash(s: seq<char>, lo: nat, hi: int)
    requires hi <= |s|
  {
    forall k :: lo <= k < hi ==> s[k] != '/'
  }

  /** From one saved position to the next: one component and its '/', or, from the start, "../" only. */
  ghost predicate GapOk(s: seq<char>, start: nat, lo: nat, hi: nat)
    requires start <= hi <= |s|
  {
    NoSlash(s, lo, hi - 1) || UpRun(s, start, hi)
  }

  /** The saved position j against the next; the two are equal only at the root. */
  ghost predicate GapAt(s: seq<char>, orig: seq<char>, start: nat, stack: seq<nat>, j: nat)
    requires start < |orig| && j + 1 < |stack|
  {
    start <= stack[j] <= stack[j + 1] <= |s| && GapOk(s, start, stack[j], stack[j + 1])
    && (stack[j] == stack[j + 1] ==> orig[start] == '/' && stack[j] == start + 1)
  }

  /** Each saved position against the next. */
  ghost predicate Gaps(s: seq<char>, orig: seq<char>, start: nat, stack: seq<nat>)
  {
    start < |orig| && forall j: nat :: j + 1 < |stack| ==> GapAt(s, orig, start, stack, j)
  }

  /**
   * From the last saved position p to outp: the component being built; or,
   * with a '/' to read, one component and its '/' (after a pop), ".." after
   * nothing but "../", or "../" only.  p is outp with a '/' to read only at
   * the root.
   */
  ghost predicate TopOk(s: seq<char>, orig: seq<char>, start: nat, inp: nat, outp: nat, p: nat)
    requires p <= outp <= |s| && start < |orig| && inp < |orig|
  {
    (NoSlash(s, p, outp)
     || (orig[inp] == '/'
         && (NoSlash(s, p, outp - 1)
             || (start + 2 <= outp && DotDotBefore(s, outp, start) && UpRun(s, start, outp - 2))
             || (start <= outp && UpRun(s, start, outp)))))
    && (p == outp && orig[inp] == '/' ==> orig[start] == '/' && outp == start + 1)
  }

  /** While the input goes on, the saved positions match the components of the output. */
  ghost predicate Stacked(s: seq<char>, orig: seq<char>, start: nat, inp: nat, outp: nat, stack: seq<nat>)
  {
    outp <= |s| && start < |orig| && inp < |orig|
    && (orig[inp] != EOS ==>
          Gaps(s, orig, start, stack)
          && (|stack| > 0 ==>
                start <= stack[|stack| - 1] <= outp && TopOk(s, orig, start, inp, outp, stack[|stack| - 1])))
  }

  /** The output so far followed by the input still to read names what the path names. */
  ghost predicate SameMeaning(s: seq<char>, orig: seq<char>, n: nat, start: nat, inp: nat, outp: nat)
  {
    start <= outp <= |s| && start <= n < |orig| && inp <= n
    && Resolve(orig[start] == '/', s[start..outp] + orig[inp..n]) == Resolve(orig[start] == '/', orig[start..n])
  }

  /** The saved positions and the meaning, bound to one name like Tidied. */
  ghost predicate Faithful(s: seq<char>, orig: seq<char>, n: nat, start: nat, inp: nat, outp: nat, stack: seq<nat>)
  {
    var holds := Stacked(s, orig, start, inp, outp, stack) && SameMeaning(s, orig, n, start, inp, outp);
    holds
  }

  /** The rewritten string names what the path named. */
  ghost predicate Means(s: seq<char>, orig: seq<char>, n: nat, start: nat)
  {
    EOS in s && start <= StrLen(s) && start <= n < |orig|
    && Resolve(orig[start] == '/', s[start..StrLen(s)]) == Resolve(orig[start] == '/', orig[start..n])
  }

  /** The first NUL is at r. */
  lemma StrLenIs(s: seq<char>, r: nat)
    requires r < |s| && s[r] == EOS && forall k :: 0 <= k < r ==> s[k] != EOS
    ensures EOS in s && StrLen(s) == r
  {
  }

  /** Ending the string at r, where the output stops, leaves its meaning. */
  lemma EndMeans(s: seq<char>, t: seq<char>, orig: seq<char>, n: nat, start: nat,
                 inp: nat, outp: nat, stack: seq<nat>, r: nat)
    requires Inv(s, orig, n, start, inp, outp, stack) && start <= r <= outp && r <= n
    requires t == s[r := EOS]
    requires Resolve(orig[start] == '/', s[start..r]) == Resolve(orig[start] == '/', orig[start..n])
    ensures Means(t, orig, n, start)
  {
    assert forall k :: 0 <= k < start ==> t[k] == orig[k];
    StrLenIs(t, r);
    assert t[start..r] == s[start..r];
  }

  /** Only cells below hi are read by the gaps between saved positions up to hi. */
  lemma GapsFrame(s: seq<char>, t: seq<char>, orig: seq<char>, start: nat, stack: seq<nat>, hi: nat)
    requires Gaps(s, orig, start, stack) && |t| == |s| && hi <= |s|
    requires forall j :: 0 <= j < |stack| ==> stack[j] <= hi
    requires forall k :: 0 <= k < hi ==> t[k] == s[k]
    ensures Gaps(t, orig, start, stack)
  {
    forall j: nat | j + 1 < |stack|
      ensures GapAt(t, orig, start, stack, j)
    {
      assert GapAt(s, orig, start, stack, j);
      if UpRun(s, start, stack[j + 1]) {
        UpRunFrame(s, t, start, stack[j + 1]);
      }
    }
  }

  /** "../" repeated ends in "../" whose ".." is a whole component. */
  lemma UpRunEnd(s: seq<char>, start: nat, b: nat)
    requires start < b <= |s| && UpRun(s, start, b)
    ensures DotDotSlashBefore(s, b, start)
  {
    assert UpRun(s, start, b - 3);
    if b - 3 != start {
      assert s[b - 4] == '/';
    }
  }

  /** Copying a character of a component: the output and the unread input meet one further on. */
  lemma CopyFaithful(s: seq<char>, t: seq<char>, orig: seq<char>, n: nat, start: nat,
                     inp: nat, outp: nat, stack: seq<nat>, cb: nat)
    requires Tidied(s, orig, n, start, inp, outp, stack, cb) && Faithful(s, orig, n, start, inp, outp, stack)
    requires s[inp] != '/' && s[inp] != EOS && t == s[outp := s[inp]]
    ensures Faithful(t, orig, n, start, inp + 1, outp + 1, stack)
  {
    assert Inv(s, orig, n, start, inp, outp, stack);
    assert outp <= inp < n;
    assert s[inp] == orig[inp] by { assert s[inp..][0] == s[inp]; }
    assert forall j :: 0 <= j < |stack| ==> stack[j] <= outp;
    CopyStacked(s, t, orig, start, inp, outp, stack);
    CopyMeans(s, t, orig, n, start, inp, outp);
  }

  lemma CopyStacked(s: seq<char>, t: seq<char>, orig: seq<char>, start: nat, inp: nat, outp: nat, stack: seq<nat>)
    requires Stacked(s, orig, start, inp, outp, stack)
    requires inp + 1 < |orig| && orig[inp] != '/' && orig[inp] != EOS
    requires outp < |s| && t == s[outp := orig[inp]]
    requires forall j :: 0 <= j < |stack| ==> stack[j] <= outp
    ensures Stacked(t, orig, start, inp + 1, outp + 1, stack)
  {
    if orig[inp + 1] != EOS {
      GapsFrame(s, t, orig, start, stack, outp);
      if |stack| > 0 {
        var p := stack[|stack| - 1];
        assert NoSlash(s, p, outp);
        assert NoSlash(t, p, outp + 1);
      }
    }
  }

  lemma CopyMeans(s: seq<char>, t: seq<char>, orig: seq<char>, n: nat, start: nat, inp: nat, outp: nat)
    requires SameMeaning(s, orig, n, start, inp, outp) && inp < n && outp < |s| && t == s[outp := orig[inp]]
    ensures SameMeaning(t, orig, n, start, inp + 1, outp + 1)
  {
    assert t[start..outp + 1] == s[start..outp] + [orig[inp]];
    assert orig[inp..n] == [orig[inp]] + orig[inp + 1..n];
    assert t[start..outp + 1] + orig[inp + 1..n] == s[start..outp] + orig[inp..n];
  }

  /** Skipping input up to a '/' or the NUL keeps the saved positions matched. */
  lemma DropStacked(s: seq<char>, orig: seq<char>, n: nat, start: nat,
                    inp: nat, inp2: nat, outp: nat, stack: seq<nat>)
    requires Stacked(s, orig, start, inp, outp, stack) && orig[inp] == '/'
    requires inp2 < |orig| && IsSep(orig[inp2])
    ensures Stacked(s, orig, start, inp2, outp, stack)
  {
  }

  /** A '/' of a run read as the last one: "//" reads as "/". */
  lemma SlashRunFaithful(s: seq<char>, orig: seq<char>, n: nat, start: nat,
                         inp: nat, outp: nat, stack: seq<nat>)
    requires Faithful(s, orig, n, start, inp, outp, stack)
    requires inp + 1 < n && orig[inp] == '/' && orig[inp + 1] == '/'
    ensures Faithful(s, orig, n, start, inp + 1, outp, stack)
  {
    DropStacked(s, orig, n, start, inp, inp + 1, outp, stack);
    var abs := orig[start] == '/';
    var o := s[start..outp];
    var rest := orig[inp + 2..n];
    assert orig[inp..n] == "//" + rest;
    assert orig[inp + 1..n] == "/" + rest;
    DoubleSlash(abs, Read(abs, Start, o));
    Replace(abs, o, "//", "/", rest);
    assert o + "//" + rest == o + orig[inp..n];
    assert o + "/" + rest == o + orig[inp + 1..n];
  }

  /** "/./" is dropped: it reads as "/". */
  lemma DropDotFaithful(s: seq<char>, orig: seq<char>, n: nat, start: nat,
                        inp: nat, outp: nat, stack: seq<nat>)
    requires Faithful(s, orig, n, start, inp, outp, stack)
    requires inp + 2 < n && orig[inp] == '/' && orig[inp + 1] == '.' && orig[inp + 2] == '/'
    ensures Faithful(s, orig, n, start, inp + 2, outp, stack)
  {
    DropStacked(s, orig, n, start, inp, inp + 2, outp, stack);
    var abs := orig[start] == '/';
    var o := s[start..outp];
    var rest := orig[inp + 3..n];
    assert orig[inp..n] == "/./" + rest;
    assert orig[inp + 2..n] == "/" + rest;
    SlashDotSlash(abs, Read(abs, Start, o));
    Replace(abs, o, "/./", "/", rest);
    assert o + "/./" + rest == o + orig[inp..n];
    assert o + "/" + rest == o + orig[inp + 2..n];
  }

  /** "/.." right after the root is dropped: the root's parent is the root. */
  lemma DropRootUpFaithful(s: seq<char>, orig: seq<char>, n: nat, start: nat,
                           inp: nat, outp: nat, stack: seq<nat>)
    requires Faithful(s, orig, n, start, inp, outp, stack)
    requires CStr(orig, n) && inp + 3 <= n && orig[inp] == '/' && orig[inp + 1] == '.' && orig[inp + 2] == '.'
    requires IsSep(orig[inp + 3])
    requires orig[start] == '/' && outp == start + 1 && start < |s| && s[start] == '/'
    ensures Faithful(s, orig, n, start, inp + 3, outp, stack)
  {
    DropStacked(s, orig, n, start, inp, inp + 3, outp, stack);
    var o := s[start..outp];
    assert o == "/";
    RootUp();
    if orig[inp + 3] == '/' {
      var rest := orig[inp + 4..n];
      assert orig[inp..n] == "/../" + rest;
      assert orig[inp + 3..n] == "/" + rest;
      Replace(true, o, "/../", "/", rest);
      assert o + "/../" + rest == o + orig[inp..n];
      assert o + "/" + rest == o + orig[inp + 3..n];
    } else {
      assert inp + 3 == n;
      assert orig[inp..n] == "/..";
      ReplaceEnd(true, o, "/..", []);
      assert o + [] == o + orig[inp + 3..n];
    }
  }

  /** A trailing "/." is dropped: the string ends where the output is. */
  lemma EndDotMeans(s: seq<char>, t: seq<char>, orig: seq<char>, n: nat, start: nat,
                    inp: nat, outp: nat, stack: seq<nat>, cb: nat)
    requires Tidied(s, orig, n, start, inp, outp, stack, cb) && Faithful(s, orig, n, start, inp, outp, stack)
    requires s[inp] == '/' && inp + 2 <= n && s[inp + 1] == '.' && s[inp + 2] == EOS
    requires t == s[outp := EOS]
    ensures Means(t, orig, n, start)
  {
    var abs := orig[start] == '/';
    var o := s[start..outp];
    assert s[inp..inp + 3] == orig[inp..inp + 3] by { assert s[inp..][..3] == s[inp..inp + 3]; }
    assert inp + 2 == n;
    assert orig[inp..n] == "/.";
    TrailingDot(abs, Read(abs, Start, o));
    ReplaceEnd(abs, o, "/.", []);
    assert o + [] == o;
    EndMeans(s, t, orig, n, start, inp, outp, stack, outp);
  }

  /** The input is over: the string ends where the output is. */
  lemma FinishMeans(s: seq<char>, t: seq<char>, orig: seq<char>, n: nat, start: nat,
                    inp: nat, outp: nat, stack: seq<nat>, cb: nat)
    requires Tidied(s, orig, n, start, inp, outp, stack, cb) && Faithful(s, orig, n, start, inp, outp, stack)
    requires orig[inp] == EOS && t == s[outp := EOS]
    ensures Means(t, orig, n, start)
  {
    assert inp == n;
    assert s[start..outp] + orig[inp..n] == s[start..outp];
    EndMeans(s, t, orig, n, start, inp, outp, stack, outp);
  }

  /** strncpy(out, in, 3) of "/.." after a `..`: the output and the unread input meet three further on. */
  lemma KeepFaithful(s: seq<char>, t: seq<char>, orig: seq<char>, n: nat, start: nat,
                     inp: nat, outp: nat, stack: seq<nat>, cb: nat)
    requires Tidied(s, orig, n, start, inp, outp, stack, cb) && Faithful(s, orig, n, start, inp, outp, stack)
    requires s[inp] == '/' && inp + 3 <= n && s[inp + 1] == '.' && s[inp + 2] == '.' && IsSep(s[inp + 3])
    requires t == s[outp := '/'][outp + 1 := '.'][outp + 2 := '.']
    requires DotDotBefore(s, outp, start) && start <= outp + 1 <= |t| && UpRun(t, start, outp + 1)
    ensures Faithful(t, orig, n, start, inp + 3, outp + 3, stack)
  {
    assert Inv(s, orig, n, start, inp, outp, stack);
    assert outp + 3 <= inp + 3 <= n;
    assert s[inp..inp + 4] == orig[inp..inp + 4] by { assert s[inp..][..4] == s[inp..inp + 4]; }
    assert forall j :: 0 <= j < |stack| ==> stack[j] <= outp;
    KeepStacked(s, t, orig, start, inp, outp, stack);
    KeepMeans(s, t, orig, n, start, inp, outp);
  }

  lemma KeepStacked(s: seq<char>, t: seq<char>, orig: seq<char>, start: nat, inp: nat, outp: nat, stack: seq<nat>)
    requires Stacked(s, orig, start, inp, outp, stack)
    requires inp + 3 < |orig| && orig[inp] == '/' && IsSep(orig[inp + 3])
    requires start <= outp && outp + 3 <= |s| && |t| == |s|
    requires t == s[outp := '/'][outp + 1 := '.'][outp + 2 := '.']
    requires DotDotBefore(s, outp, start) && UpRun(t, start, outp + 1)
    requires forall j :: 0 <= j < |stack| ==> stack[j] <= outp
    ensures Stacked(t, orig, start, inp + 3, outp + 3, stack)
  {
    if orig[inp + 3] != EOS {
      GapsFrame(s, t, orig, start, stack, outp);
      assert DotDotBefore(t, outp + 3, start);
    }
  }

  lemma KeepMeans(s: seq<char>, t: seq<char>, orig: seq<char>, n: nat, start: nat, inp: nat, outp: nat)
    requires SameMeaning(s, orig, n, start, inp, outp) && inp + 3 <= n && outp + 3 <= |s|
    requires t == s[outp := orig[inp]][outp + 1 := orig[inp + 1]][outp + 2 := orig[inp + 2]]
    ensures SameMeaning(t, orig, n, start, inp + 3, outp + 3)
  {
    assert t[start..outp + 3] == s[start..outp] + orig[inp..inp + 3];
    assert orig[inp..n] == orig[inp..inp + 3] + orig[inp + 3..n];
    assert t[start..outp + 3] + orig[inp + 3..n] == s[start..outp] + orig[inp..n];
  }

  /** Writing ".." just after a "../" the output was popped back to keeps the state. */
  lemma KeepAfterPopKeeps(s: seq<char>, t: seq<char>, orig: seq<char>, n: nat, start: nat,
                          inp: nat, outp: nat, stack: seq<nat>, cb: nat)
    requires Tidied(s, orig, n, start, inp, outp, stack, cb)
    requires s[inp] == '/' && inp + 3 <= n && s[inp + 1] == '.' && s[inp + 2] == '.' && IsSep(s[inp + 3])
    requires DotDotSlashBefore(s, outp, start)
    requires t == s[outp := '.'][outp + 1 := '.']
    ensures Tidied(t, orig, n, start, inp + 3, outp + 2, stack, outp)
    ensures UpRun(t, start, outp)
  {
    KeepAfterPopShape(s, t, orig, n, start, inp, outp, stack);
    TidyAt(s, start, outp, outp - 1);
    assert DotDotEndsAt(s, start, outp - 1);
    assert UpRun(s, start, outp);
    FrameBelow(s, t, start, outp);
    UpRunFrame(s, t, start, outp);
    assert Tidy(t, start, outp + 1);
    assert Tidy(t, start, outp + 2);
    assert BuildsDotDot(t, orig, outp, outp + 2, inp + 3) by {
      assert orig[inp + 3] == s[inp + 3];
    }
    TidiedIntro(t, orig, n, start, inp + 3, outp + 2, stack, outp);
  }

  /** Writing ".." after a popped-to "../" keeps Inv and the shape of the stack. */
  lemma KeepAfterPopShape(s: seq<char>, t: seq<char>, orig: seq<char>, n: nat, start: nat,
                          inp: nat, outp: nat, stack: seq<nat>)
    requires Inv(s, orig, n, start, inp, outp, stack) && StackShape(s, orig, start, inp, outp, stack)
    requires s[inp] == '/' && inp + 3 <= n && s[inp + 1] == '.' && s[inp + 2] == '.' && IsSep(s[inp + 3])
    requires DotDotSlashBefore(s, outp, start)
    requires t == s[outp := '.'][outp + 1 := '.']
    ensures Inv(t, orig, n, start, inp + 3, outp + 2, stack)
    ensures StackShape(t, orig, start, inp + 3, outp + 2, stack)
    ensures start + 3 <= outp <= inp && |stack| > 0
  {
    assert outp <= inp;
    assert s[inp + 3..] == orig[inp + 3..] by {
      assert s[inp..][3..] == s[inp + 3..];
      assert orig[inp..][3..] == orig[inp + 3..];
    }
    assert t[inp + 3..] == s[inp + 3..];
  }

  /** After the pop back past a kept `..`, a further `..` is kept: "//.." reads as "/..". */
  lemma KeepAfterPopFaithful(s: seq<char>, t: seq<char>, orig: seq<char>, n: nat, start: nat,
                             inp: nat, outp: nat, stack: seq<nat>, cb: nat)
    requires Tidied(s, orig, n, start, inp, outp, stack, cb) && Faithful(s, orig, n, start, inp, outp, stack)
    requires s[inp] == '/' && inp + 3 <= n && s[inp + 1] == '.' && s[inp + 2] == '.' && IsSep(s[inp + 3])
    requires t == s[outp := '.'][outp + 1 := '.']
    requires DotDotSlashBefore(s, outp, start) && start <= outp <= |t| && UpRun(t, start, outp)
    ensures Faithful(t, orig, n, start, inp + 3, outp + 2, stack)
  {
    assert Inv(s, orig, n, start, inp, outp, stack);
    assert outp <= inp;
    assert s[inp..inp + 4] == orig[inp..inp + 4] by { assert s[inp..][..4] == s[inp..inp + 4]; }
    assert forall j :: 0 <= j < |stack| ==> stack[j] <= outp;
    KeepAfterPopStacked(s, t, orig, start, inp, outp, stack);
    KeepAfterPopMeans(s, t, orig, n, start, inp, outp);
  }

  lemma KeepAfterPopStacked(s: seq<char>, t: seq<char>, orig: seq<char>, start: nat, inp: nat, outp: nat,
                            stack: seq<nat>)
    requires Stacked(s, orig, start, inp, outp, stack)
    requires inp + 3 < |orig| && orig[inp] == '/' && IsSep(orig[inp + 3])
    requires start <= outp && outp + 2 <= |s| && |t| == |s|
    requires t == s[outp := '.'][outp + 1 := '.']
    requires DotDotSlashBefore(s, outp, start) && UpRun(t, start, outp)
    requires forall j :: 0 <= j < |stack| ==> stack[j] <= outp
    ensures Stacked(t, orig, start, inp + 3, outp + 2, stack)
  {
    if orig[inp + 3] != EOS {
      GapsFrame(s, t, orig, start, stack, outp);
      assert DotDotBefore(t, outp + 2, start);
    }
  }

  lemma KeepAfterPopMeans(s: seq<char>, t: seq<char>, orig: seq<char>, n: nat, start: nat, inp: nat, outp: nat)
    requires SameMeaning(s, orig, n, start, inp, outp) && inp + 3 <= n && outp + 2 <= |s|
    requires start < outp && s[outp - 1] == '/' && orig[inp] == '/'
    requires t == s[outp := orig[inp + 1]][outp + 1 := orig[inp + 2]]
    ensures SameMeaning(t, orig, n, start, inp + 3, outp + 2)
  {
    var abs := orig[start] == '/';
    var o := s[start..outp - 1];
    var rest := orig[inp + 1..n];
    assert s[start..outp] == o + "/";
    assert orig[inp..n] == "/" + rest;
    assert t[start..outp + 2] == o + "/" + orig[inp + 1..inp + 3];
    DoubleSlash(abs, Read(abs, Start, o));
    Replace(abs, o, "//", "/", rest);
    assert o + "//" + rest == s[start..outp] + orig[inp..n];
    assert o + "/" + rest == t[start..outp + 2] + orig[inp + 3..n];
  }

  /**
   * At a pop, the output from the last saved position p is a name, maybe
   * with its '/', or, at the root, nothing; the output before p ends on a
   * component boundary.
   */
  lemma PopRegion(s: seq<char>, orig: seq<char>, n: nat, start: nat,
                  inp: nat, outp: nat, stack: seq<nat>, cb: nat) returns (e: nat)
    requires Tidied(s, orig, n, start, inp, outp, stack, cb) && Stacked(s, orig, start, inp, outp, stack)
    requires |stack| > 0 && s[inp] == '/'
    requires !DotDotBefore(s, outp, start) && !DotDotSlashBefore(s, outp, start)
    ensures var p := stack[|stack| - 1];
            start <= p <= e <= outp && (e == outp || (e == outp - 1 && s[e] == '/'))
            && (p == e ==> e == outp && orig[start] == '/' && p == start + 1 && s[start] == '/')
            && (p < e ==> IsName(s[p..e]))
            && (p == start || s[p - 1] == '/')
  {
    var p := stack[|stack| - 1];
    assert orig[inp] == '/' by { assert s[inp..][0] == s[inp]; }
    assert TopOk(s, orig, start, inp, outp, p);
    assert Boundary(s, start, p);
    if p == outp {
      e := outp;
      return;
    }
    if start < outp && UpRun(s, start, outp) {
      UpRunEnd(s, start, outp);
    }
    assert NoSlash(s, p, outp - 1);
    e := if s[outp - 1] == '/' then outp - 1 else outp;
    if e == outp {
      PendingCompOk(s, orig, n, start, cb, outp, inp);
    } else {
      TidyAt(s, start, outp, e);
    }
    assert CompOk(s, start, e);
    var c := s[p..e];
    assert c != [];
    assert '/' !in c by {
      forall i | 0 <= i < |c|
        ensures c[i] != '/'
      {
        assert c[i] == s[p + i];
      }
    }
    NotDotRegion(s, start, p, e);
    assert c != "." by {
      if |c| == 1 {
        assert c[0] == s[p];
      }
    }
    NotDotDotRegion(s, start, p, e, outp);
    assert c != ".." by {
      if |c| == 2 {
        assert c[0] == s[p] && c[1] == s[p + 1];
      }
    }
  }

  /** A tidy component is not ".". */
  lemma NotDotRegion(s: seq<char>, start: nat, p: nat, e: nat)
    requires start <= p < e <= |s| && (p == start || s[p - 1] == '/') && CompOk(s, start, e)
    ensures !(e == p + 1 && s[p] == '.')
  {
  }

  /** Where neither `..` test holds, the component before outp (and its '/') is not "..". */
  lemma NotDotDotRegion(s: seq<char>, start: nat, p: nat, e: nat, outp: nat)
    requires start <= p <= e <= outp <= |s| && (e == outp || (e == outp - 1 && s[e] == '/'))
    requires p == start || s[p - 1] == '/'
    requires !DotDotBefore(s, outp, start) && !DotDotSlashBefore(s, outp, start)
    ensures !(e == p + 2 && s[p] == '.' && s[p + 1] == '.')
  {
  }

  /** The saved position the pop goes back to starts a component: "X/C/.." reads as "X". */
  lemma PopFaithful(s: seq<char>, orig: seq<char>, n: nat, start: nat,
                    inp: nat, outp: nat, stack: seq<nat>, cb: nat)
    requires Tidied(s, orig, n, start, inp, outp, stack, cb) && Faithful(s, orig, n, start, inp, outp, stack)
    requires |stack| > 0 && s[inp] == '/' && inp + 3 <= n && s[inp + 1] == '.' && s[inp + 2] == '.' && IsSep(s[inp + 3])
    requires !DotDotBefore(s, outp, start) && !DotDotSlashBefore(s, outp, start)
    ensures var p := stack[|stack| - 1];
            Faithful(s, orig, n, start, inp + 3, p, stack[..|stack| - 1])
            && (s[inp + 3] == EOS && p > start + 1 ==> Means(s[p - 1 := EOS], orig, n, start))
  {
    var p := stack[|stack| - 1];
    var e := PopRegion(s, orig, n, start, inp, outp, stack, cb);
    assert Inv(s, orig, n, start, inp, outp, stack);
    assert s[inp..inp + 4] == orig[inp..inp + 4] by { assert s[inp..][..4] == s[inp..inp + 4]; }
    PopStacked(s, orig, start, inp, outp, stack);
    PopMeans(s, orig, n, start, inp, outp, p, e);
    if s[inp + 3] == EOS && p > start + 1 {
      assert inp + 3 == n;
      assert s[start..p] + orig[inp + 3..n] == s[start..p];
      PopDoneMeans(s, orig, n, start, inp, outp, stack, p, s[start..p]);
    }
  }

  /** "X" + "C/.." + the rest reads as "X" + the rest, C a name or, at the root, nothing. */
  lemma PopMeans(s: seq<char>, orig: seq<char>, n: nat, start: nat, inp: nat, outp: nat, p: nat, e: nat)
    requires SameMeaning(s, orig, n, start, inp, outp) && CStr(orig, n)
    requires inp + 3 <= n && orig[inp..inp + 3] == "/.." && IsSep(orig[inp + 3])
    requires start <= p <= e <= outp && (e == outp || (e == outp - 1 && s[e] == '/'))
    requires p == e ==> e == outp && orig[start] == '/' && p == start + 1 && s[start] == '/'
    requires p < e ==> IsName(s[p..e])
    requires p == start || s[p - 1] == '/'
    ensures SameMeaning(s, orig, n, start, inp + 3, p)
  {
    var abs := orig[start] == '/';
    var x := s[start..p];
    var u := s[p..outp];
    AtBoundary(abs, x);
    PopUpReads(s, start, p, e, outp, abs, Read(abs, Start, x));
    assert s[start..outp] == x + u;
    var rest := orig[inp + 3..n];
    assert orig[inp..n] == "/.." + rest by {
      assert orig[inp..n] == orig[inp..inp + 3] + rest;
    }
    if orig[inp + 3] == '/' {
      UpSlashReplace(abs, x, u, orig[inp + 4..n]);
      assert rest == "/" + orig[inp + 4..n];
    } else {
      assert rest == [];
      ReplaceEnd(abs, x, u + "/..", []);
      assert x + (u + "/..") == x + u + ("/.." + rest);
      assert x + [] == x + rest;
    }
  }

  /** x + u + "/../" + r reads as x + "/" + r when u + "/../" reads as "/" after x. */
  lemma UpSlashReplace(abs: bool, x: string, u: string, r: string)
    requires Read(abs, Read(abs, Start, x), u + "/../") == Read(abs, Read(abs, Start, x), "/")
    ensures Resolve(abs, x + u + ("/.." + ("/" + r))) == Resolve(abs, x + ("/" + r))
  {
    Replace(abs, x, u + "/../", "/", r);
    assert x + (u + "/../") + r == x + u + ("/.." + ("/" + r));
    assert x + "/" + r == x + ("/" + r);
  }

  /** What the popped region reads as from the boundary before it. */
  lemma PopUpReads(s: seq<char>, start: nat, p: nat, e: nat, outp: nat, abs: bool, w: Walk)
    requires start <= p <= e <= outp <= |s| && (e == outp || (e == outp - 1 && s[e] == '/'))
    requires p == e ==> e == outp && abs && p == start + 1 && s[start] == '/'
    requires p < e ==> IsName(s[p..e])
    requires w == Read(abs, Start, s[start..p]) && w.cur == []
    ensures Read(abs, w, s[p..outp] + "/../") == Read(abs, w, "/")
    ensures Close(abs, Read(abs, w, s[p..outp] + "/..")) == w
  {
    if p == e {
      assert s[start..p] == "/";
      RootUp();
      assert s[p..outp] == [];
      assert s[p..outp] + "/../" == "/../";
      assert s[p..outp] + "/.." == "/..";
    } else {
      var tail := s[e..outp];
      assert tail == [] || tail == "/";
      assert s[p..outp] == s[p..e] + tail;
      NameUp(abs, w, s[p..e], tail);
    }
  }

  /** "X/C/.." at the end: the '/' before C is cut off as well. */
  lemma PopDoneMeans(s: seq<char>, orig: seq<char>, n: nat, start: nat,
                     inp: nat, outp: nat, stack: seq<nat>, p: nat, x: seq<char>)
    requires Inv(s, orig, n, start, inp, outp, stack) && start + 1 < p <= outp && s[p - 1] == '/'
    requires x == s[start..p]
    requires Resolve(orig[start] == '/', x) == Resolve(orig[start] == '/', orig[start..n])
    ensures Means(s[p - 1 := EOS], orig, n, start)
  {
    var abs := orig[start] == '/';
    var x0 := s[start..p - 1];
    assert x == x0 + "/";
    ReadAppend(abs, Start, x0, "/");
    ReadSlash(abs, Read(abs, Start, x0));
    ReplaceEnd(abs, x0, "/", []);
    assert x0 + [] == x0;
    assert p - 1 <= n;
    EndMeans(s, s[p - 1 := EOS], orig, n, start, inp, outp, stack, p - 1);
  }

  /** After a pop the saved position below becomes the last, and it matches what is left. */
  lemma PopStacked(s: seq<char>, orig: seq<char>, start: nat, inp: nat, outp: nat, stack: seq<nat>)
    requires Stacked(s, orig, start, inp, outp, stack) && |stack| > 0 && orig[inp] == '/'
    requires inp + 3 < |orig| && IsSep(orig[inp + 3])
    ensures Stacked(s, orig, start, inp + 3, stack[|stack| - 1], stack[..|stack| - 1])
  {
    var p := stack[|stack| - 1];
    var st := stack[..|stack| - 1];
    assert forall j :: 0 <= j < |st| ==> st[j] == stack[j];
    if orig[inp + 3] != EOS {
      forall j: nat | j + 1 < |st|
        ensures GapAt(s, orig, start, st, j)
      {
        assert GapAt(s, orig, start, stack, j);
      }
      if |st| > 0 {
        var q := st[|st| - 1];
        assert GapAt(s, orig, start, stack, |stack| - 2);
        assert TopOk(s, orig, start, inp + 3, p, q);
      }
    }
  }

  /** The tail of a '/' step: the '/' that ends the component is written or was already there. */
  lemma TailFaithful(s: seq<char>, t: seq<char>, orig: seq<char>, n: nat, start: nat,
                     i: nat, outp: nat, stack: seq<nat>, cb: nat, o: nat)
    requires Tidied(s, orig, n, start, i, outp, stack, cb) && Faithful(s, orig, n, start, i, outp, stack)
    requires s[i] == '/' && s[i + 1] != '/'
    requires var w := outp > 0 && s[outp - 1] != '/';
             (w && t == s[outp := '/'] && o == outp + 1) || (!w && t == s && o == outp)
    ensures Faithful(t, orig, n, start, i + 1, o, stack + [o])
  {
    assert Inv(s, orig, n, start, i, outp, stack);
    assert orig[i] == '/' && orig[i + 1] == s[i + 1] by {
      assert s[i..][0] == s[i] && s[i..][1] == s[i + 1];
    }
    assert outp <= i + 1 && i < n;
    assert forall j :: 0 <= j < |stack| ==> start <= stack[j] <= outp;
    var w := outp > 0 && s[outp - 1] != '/';
    assert w ==> start < outp <= i by {
      if start > 0 { assert s[start - 1] == '/'; }
    }
    TailStacked(s, t, orig, start, i, outp, stack, o);
    TailMeans(s, t, orig, n, start, i, outp, o);
  }

  lemma TailMeans(s: seq<char>, t: seq<char>, orig: seq<char>, n: nat, start: nat, i: nat, outp: nat, o: nat)
    requires SameMeaning(s, orig, n, start, i, outp) && i < n && orig[i] == '/'
    requires (o == outp + 1 && outp < |s| && t == s[outp := '/'])
             || (o == outp && t == s && (outp == start || s[outp - 1] == '/'))
    ensures SameMeaning(t, orig, n, start, i + 1, o)
  {
    var abs := orig[start] == '/';
    var x := s[start..outp];
    var rest := orig[i + 1..n];
    assert orig[i..n] == "/" + rest;
    if o == outp + 1 {
      assert t[start..o] == x + "/";
      assert t[start..o] + rest == x + orig[i..n];
    } else {
      AtBoundary(abs, x);
      ReadSlash(abs, Read(abs, Start, x));
      assert Read(abs, Read(abs, Start, x), []) == Read(abs, Start, x);
      Replace(abs, x, "/", [], rest);
      assert x + "/" + rest == x + orig[i..n];
      assert x + [] + rest == t[start..o] + rest;
    }
  }

  /** The saved positions after the tail of a '/' step. */
  lemma TailStacked(s: seq<char>, t: seq<char>, orig: seq<char>, start: nat,
                    i: nat, outp: nat, stack: seq<nat>, o: nat)
    requires Stacked(s, orig, start, i, outp, stack) && i + 1 < |orig| && orig[i] == '/' && orig[i + 1] != '/'
    requires start <= outp <= |s|
    requires forall j :: 0 <= j < |stack| ==> start <= stack[j] <= outp
    requires start > 0 ==> s[start - 1] == '/'
    requires var w := outp > 0 && s[outp - 1] != '/';
             (w && outp < |s| && t == s[outp := '/'] && o == outp + 1 && start < outp) || (!w && t == s && o == outp)
    ensures Stacked(t, orig, start, i + 1, o, stack + [o])
  {
    var w := outp > 0 && s[outp - 1] != '/';
    GapsFrame(s, t, orig, start, stack, outp);
    var st := stack + [o];
    if |stack| > 0 {
      var p := stack[|stack| - 1];
      assert TopOk(s, orig, start, i, outp, p);
      if start < outp && UpRun(s, start, outp) {
        UpRunEnd(s, start, outp);
      }
      if w && start + 2 <= outp && DotDotBefore(s, outp, start) && UpRun(s, start, outp - 2) {
        UpRunFrame(s, t, start, outp - 2);
        assert UpRun(t, start, outp + 1);
      }
      if !w && UpRun(s, start, outp) {
        UpRunFrame(s, t, start, outp);
      }
      if w && NoSlash(s, p, outp - 1) {
        assert NoSlash(t, p, o - 1);
      }
      assert GapOk(t, start, p, o);
    }
    forall j: nat | j + 1 < |st|
      ensures GapAt(t, orig, start, st, j)
    {
      if j + 1 < |stack| {
        assert GapAt(t, orig, start, stack, j);
      }
    }
    assert TopOk(t, orig, start, i + 1, o, o);
  }

  /** Skipped slashes name nothing where no component is being read. */
  lemma {:induction false} SkipSlashesReads(abs: bool, w: Walk, s: seq<char>, i: nat)
    requires w.cur == [] && i <= |s|
    ensures SkipSlashes(s, i) <= |s| && Read(abs, w, s[i..SkipSlashes(s, i)]) == w
    decreases |s| - i
  {
    if i < |s| && s[i] == '/' {
      SkipSlashesReads(abs, w, s, i + 1);
      var j := SkipSlashes(s, i + 1);
      assert s[i..j] == "/" + s[i + 1..j];
      ReadAppend(abs, w, "/", s[i + 1..j]);
      ReadSlash(abs, w);
    } else {
      assert s[i..i] == [];
    }
  }

  /** Skipped "./" prefixes name nothing where no component is being read. */
  lemma {:induction false} SkipDotSlashReads(abs: bool, w: Walk, s: seq<char>, i: nat)
    requires w.cur == [] && i <= |s|
    ensures SkipDotSlash(s, i) <= |s| && Read(abs, w, s[i..SkipDotSlash(s, i)]) == w
    decreases |s| - i
  {
    if i + 1 < |s| && s[i] == '.' && s[i + 1] == '/' {
      SkipSlashesReads(abs, w, s, i + 2);
      var k := SkipSlashes(s, i + 2);
      SkipDotSlashReads(abs, w, s, k);
      var j := SkipDotSlash(s, k);
      assert s[i..j] == "./" + s[i + 2..k] + s[k..j];
      ReadAppend(abs, w, "./" + s[i + 2..k], s[k..j]);
      ReadAppend(abs, w, "./", s[i + 2..k]);
      DotSlash(abs, w);
    } else {
      assert s[i..i] == [];
    }
  }

  /** Skipped "/.." at the root name the root itself. */
  lemma {:induction false} SkipRootDotDotReads(s: seq<char>, i: nat)
    requires i < |s| && s[i] == '/'
    ensures SkipRootDotDot(s, i) < |s|
    ensures Read(true, Start, s[i..SkipRootDotDot(s, i) + 1]) == Start
    decreases |s| - i
  {
    SkipRootDotDotKeepsSlash(s, i);
    RootUp();
    if i + 3 < |s| && s[i + 1] == '.' && s[i + 2] == '.' && s[i + 3] == '/' {
      SkipRootDotDotReads(s, i + 3);
      var j := SkipRootDotDot(s, i + 3);
      assert s[i..j + 1] == "/../" + s[i + 4..j + 1];
      assert s[i + 3..j + 1] == "/" + s[i + 4..j + 1];
      ReadAppend(true, Start, "/../", s[i + 4..j + 1]);
      ReadAppend(true, Start, "/", s[i + 4..j + 1]);
    } else {
      assert s[i..i + 1] == "/";
    }
  }

  /** The state once the leading prefixes are skipped and the root written names what the path does. */
  lemma InitialFaithful(orig: seq<char>, n: nat, start: nat, inp: nat)
    requires CStr(orig, n) && start <= inp <= n && inp == StripLeading(orig, start)
    requires orig[inp] == '/' <==> orig[start] == '/'
    ensures var b := Base(orig, start);
            Faithful(orig, orig, n, start, inp, b, [b])
  {
    var b := Base(orig, start);
    if orig[start] == '/' {
      SkipRootDotDotReads(orig, start);
      SkipRootDotDotKeepsSlash(orig, start);
      var j := SkipRootDotDot(orig, start);
      assert inp == j;
      var rest := orig[inp + 1..n];
      assert orig[start..n] == orig[start..inp + 1] + rest;
      ReadAppend(true, Start, orig[start..inp + 1], rest);
      assert orig[start..b] + orig[inp..n] == "//" + rest;
      ReadAppend(true, Start, "//", rest);
      DoubleSlash(true, Start);
    } else {
      assert SkipRootDotDot(orig, start) == start;
      SkipDotSlashReads(false, Start, orig, start);
      assert orig[start..n] == orig[start..inp] + orig[inp..n];
      ReadAppend(false, Start, orig[start..inp], orig[inp..n]);
      assert orig[start..b] + orig[inp..n] == orig[inp..n];
    }
  }

  /** A rewritten string that names what the path named is the same path, absolute or not. */
  lemma MeansNames(s: seq<char>, orig: seq<char>, n: nat, start: nat)
    requires Done(s, orig, n, start) && Means(s, orig, n, start)
    ensures Names(s[start..StrLen(s)]) == Names(orig[start..n])
  {
    var r := StrLen(s);
    assert (s[start..r] != [] && s[start..r][0] == '/') == (orig[start] == '/') by {
      if r == start { assert s[start] == EOS; }
    }
    assert (orig[start..n] != [] && orig[start..n][0] == '/') == (orig[start] == '/') by {
      if n == start { assert orig[start] == EOS; }
    }
  }

  /*****************************************************************
   * canonicaliseFileName()
   *****************************************************************/

  /** What the methods need of Tidied: the string, the unread input, and where the root is. */
  lemma TidiedFacts(s: seq<char>, orig: seq<char>, n: nat, start: nat, inp: nat, outp: nat,
                    stack: seq<nat>, cb: nat)
    requires Tidied(s, orig, n, start, inp, outp, stack, cb)
    ensures CStr(orig, n) && |s| == |orig| && inp <= n && start <= outp <= inp + 1
    ensures forall k :: inp <= k < |s| ==> s[k] == orig[k]
    ensures orig[start] == '/' <==> outp > start && s[start] == '/'
  {
    assert Inv(s, orig, n, start, inp, outp, stack);
    forall k | inp <= k < |s|
      ensures s[k] == orig[k]
    {
      assert s[inp..][k - inp] == s[k];
    }
  }

  /** At the NUL the position is saved; nothing is left to read. */
  lemma PushFaithful(s: seq<char>, orig: seq<char>, n: nat, start: nat, inp: nat, outp: nat,
                     stack: seq<nat>, o: nat)
    requires Faithful(s, orig, n, start, inp, outp, stack) && inp < |orig| && orig[inp] == EOS
    ensures Faithful(s, orig, n, start, inp, outp, stack + [o])
  {
  }

  /**
   * The rule of the `again:` block that holds at r, the last '/' of a run:
   * drop "/./", stop at a trailing "/.", or one of the `..` rules.  After a
   * `..` is kept the block starts again, so that what follows meets the
   * rules too.
   */
  method ApplyRule(a: array<char>, ghost orig: seq<char>, ghost n: nat, start: nat,
                   r: nat, outp: nat, stack: seq<nat>, ghost cb: nat)
    returns (inp1: nat, outp1: nat, stack1: seq<nat>, again: bool, done: bool, ghost cb1: nat)
    requires Tidied(a[..], orig, n, start, r, outp, stack, cb) && a[r] == '/' && a[r + 1] != '/'
    requires Faithful(a[..], orig, n, start, r, outp, stack)
    modifies a
    ensures var s := old(a[..]);
            match RuleAt(s, r, outp, |stack| == 0, start)
            case NoRule =>
              !again && !done && inp1 == r && outp1 == outp && stack1 == stack && a[..] == s
            case DropDot =>
              again && !done && inp1 == r + 2 && outp1 == outp && stack1 == stack && a[..] == s
            case EndDot =>
              done && a[..] == s[outp := EOS]
            case KeepUp =>
              again && !done && inp1 == r + 3 && outp1 == outp + 3 && stack1 == stack
              && a[..] == s[outp := '/'][outp + 1 := '.'][outp + 2 := '.']
            case KeepUpAfterPop =>
              again && !done && inp1 == r + 3 && outp1 == outp + 2 && stack1 == stack
              && a[..] == s[outp := '.'][outp + 1 := '.']
            case PopUp =>
              inp1 == r + 3 && outp1 == stack[|stack| - 1] && stack1 == stack[..|stack| - 1]
              && (done <==> s[r + 3] == EOS && outp1 > start + 1) && again == !done
              && a[..] == (if done then s[outp1 - 1 := EOS] else s)
            case DropRootUp =>
              again && !done && inp1 == r + 3 && outp1 == outp && stack1 == stack && a[..] == s
    ensures done ==> Done(a[..], orig, n, start) && Means(a[..], orig, n, start)
    ensures !done ==> Tidied(a[..], orig, n, start, inp1, outp1, stack1, cb1)
                      && Faithful(a[..], orig, n, start, inp1, outp1, stack1)
    ensures !done ==> a[inp1] == '/' || a[inp1] == EOS
    ensures again ==> !done && r < inp1
    ensures !done && !again ==> a[inp1] == '/' && a[inp1 + 1] != '/'
                                && RuleAt(a[..], inp1, outp1, |stack1| == 0, start) == NoRule
  {
    ghost var rule := RuleAt(a[..], r, outp, |stack| == 0, start);
    inp1, outp1, stack1, again, done, cb1 := r, outp, stack, false, false, cb;
    if a[r + 1] == '.' {
      if a[r + 2] == '/' {
        assert rule == DropDot;
        TidiedFacts(a[..], orig, n, start, r, outp, stack, cb);
        DropKeeps(a[..], orig, n, start, r, r + 2, outp, stack, cb);
        DropDotFaithful(a[..], orig, n, start, r, outp, stack);
        inp1, again := r + 2, true;
      } else if a[r + 2] == EOS {
        assert rule == EndDot;
        EndAtTrailingDot(a, orig, n, start, r, outp, stack, cb);
        done := true;
      } else if a[r + 2] == '.' && (a[r + 3] == '/' || a[r + 3] == EOS) {
        inp1, outp1, stack1, again, done, cb1 := DotDotRule(a, orig, n, start, r, outp, stack, cb);
        if !done && !again {
          assert rule == NoRule && inp1 == r && outp1 == outp && stack1 == stack;
        }
      } else {
        assert rule == NoRule;
      }
    } else {
      assert rule == NoRule;
    }
  }

  /**
   * "/.." at r: keep it after a `..` (also once a pop has left the output
   * just after "../"), pop a component, drop it right after the root, or
   * leave it to be copied.
   */
  method DotDotRule(a: array<char>, ghost orig: seq<char>, ghost n: nat, start: nat,
                    r: nat, outp: nat, stack: seq<nat>, ghost cb: nat)
    returns (inp1: nat, outp1: nat, stack1: seq<nat>, again: bool, done: bool, ghost cb1: nat)
    requires Tidied(a[..], orig, n, start, r, outp, stack, cb) && Faithful(a[..], orig, n, start, r, outp, stack)
    requires a[r] == '/' && a[r + 1] == '.' && r + 3 <= n && a[r + 2] == '.' && (a[r + 3] == '/' || a[r + 3] == EOS)
    modifies a
    ensures var s := old(a[..]);
            var rule := RuleAt(s, r, outp, |stack| == 0, start);
            && (rule == NoRule ==>
                  !again && !done && inp1 == r && outp1 == outp && stack1 == stack && a[..] == s)
            && (rule == KeepUp ==>
                  again && !done && inp1 == r + 3 && outp1 == outp + 3 && stack1 == stack
                  && a[..] == s[outp := '/'][outp + 1 := '.'][outp + 2 := '.'])
            && (rule == KeepUpAfterPop ==>
                  again && !done && inp1 == r + 3 && outp1 == outp + 2 && stack1 == stack
                  && a[..] == s[outp := '.'][outp + 1 := '.'])
            && (rule == PopUp ==>
                  inp1 == r + 3 && outp1 == stack[|stack| - 1] && stack1 == stack[..|stack| - 1]
                  && (done <==> s[r + 3] == EOS && outp1 > start + 1) && again == !done
                  && a[..] == (if done then s[outp1 - 1 := EOS] else s))
            && (rule == DropRootUp ==>
                  again && !done && inp1 == r + 3 && outp1 == outp && stack1 == stack && a[..] == s)
    ensures done ==> Done(a[..], orig, n, start) && Means(a[..], orig, n, start)
    ensures !done ==> Tidied(a[..], orig, n, start, inp1, outp1, stack1, cb1)
                      && Faithful(a[..], orig, n, start, inp1, outp1, stack1)
    ensures !done ==> a[inp1] == '/' || a[inp1] == EOS
  {
    if DotDotBefore(a[..], outp, start) || DotDotSlashBefore(a[..], outp, start) {
      inp1, outp1, cb1 := KeepRule(a, orig, n, start, r, outp, stack, cb);
      stack1, again, done := stack, true, false;
    } else {
      inp1, outp1, stack1, again, done, cb1 := UpRule(a, orig, n, start, r, outp, stack, cb);
    }
  }

  /** A `..` that follows a kept `..` is kept: right after it, or after the "../" a pop went back to. */
  method KeepRule(a: array<char>, ghost orig: seq<char>, ghost n: nat, start: nat,
                  r: nat, outp: nat, stack: seq<nat>, ghost cb: nat)
    returns (inp1: nat, outp1: nat, ghost cb1: nat)
    requires Tidied(a[..], orig, n, start, r, outp, stack, cb) && Faithful(a[..], orig, n, start, r, outp, stack)
    requires a[r] == '/' && a[r + 1] == '.' && r + 3 <= n && a[r + 2] == '.' && (a[r + 3] == '/' || a[r + 3] == EOS)
    requires DotDotBefore(a[..], outp, start) || DotDotSlashBefore(a[..], outp, start)
    modifies a
    ensures var s := old(a[..]);
            var rule := RuleAt(s, r, outp, |stack| == 0, start);
            && (rule == KeepUp || rule == KeepUpAfterPop)
            && (rule == KeepUp ==>
                  inp1 == r + 3 && outp1 == outp + 3 && a[..] == s[outp := '/'][outp + 1 := '.'][outp + 2 := '.'])
            && (rule == KeepUpAfterPop ==>
                  inp1 == r + 3 && outp1 == outp + 2 && a[..] == s[outp := '.'][outp + 1 := '.'])
    ensures Tidied(a[..], orig, n, start, inp1, outp1, stack, cb1) && Faithful(a[..], orig, n, start, inp1, outp1, stack)
    ensures a[inp1] == '/' || a[inp1] == EOS
  {
    ghost var rule := RuleAt(a[..], r, outp, |stack| == 0, start);
    if DotDotBefore(a[..], outp, start) {
      assert rule == KeepUp;
      inp1, outp1 := KeepDotDot(a, orig, n, start, r, outp, stack, cb);
      cb1 := outp + 1;
    } else {
      assert rule == KeepUpAfterPop;
      inp1, outp1 := KeepDotDotAfterPop(a, orig, n, start, r, outp, stack, cb);
      cb1 := outp;
    }
  }

  /** Otherwise "/.." pops a component, is dropped right after the root, or is left to be copied. */
  method UpRule(a: array<char>, ghost orig: seq<char>, ghost n: nat, start: nat,
                r: nat, outp: nat, stack: seq<nat>, ghost cb: nat)
    returns (inp1: nat, outp1: nat, stack1: seq<nat>, again: bool, done: bool, ghost cb1: nat)
    requires Tidied(a[..], orig, n, start, r, outp, stack, cb) && Faithful(a[..], orig, n, start, r, outp, stack)
    requires a[r] == '/' && a[r + 1] == '.' && r + 3 <= n && a[r + 2] == '.' && (a[r + 3] == '/' || a[r + 3] == EOS)
    requires !DotDotBefore(a[..], outp, start) && !DotDotSlashBefore(a[..], outp, start)
    modifies a
    ensures var s := old(a[..]);
            var rule := RuleAt(s, r, outp, |stack| == 0, start);
            && (rule == PopUp || rule == DropRootUp || rule == NoRule)
            && (rule == NoRule ==>
                  !again && !done && inp1 == r && outp1 == outp && stack1 == stack && a[..] == s)
            && (rule == PopUp ==>
                  inp1 == r + 3 && outp1 == stack[|stack| - 1] && stack1 == stack[..|stack| - 1]
                  && (done <==> s[r + 3] == EOS && outp1 > start + 1) && again == !done
                  && a[..] == (if done then s[outp1 - 1 := EOS] else s))
            && (rule == DropRootUp ==>
                  again && !done && inp1 == r + 3 && outp1 == outp && stack1 == stack && a[..] == s)
    ensures done ==> Done(a[..], orig, n, start) && Means(a[..], orig, n, start)
    ensures !done ==> Tidied(a[..], orig, n, start, inp1, outp1, stack1, cb1)
                      && Faithful(a[..], orig, n, start, inp1, outp1, stack1)
    ensures !done ==> a[inp1] == '/' || a[inp1] == EOS
  {
    ghost var rule := RuleAt(a[..], r, outp, |stack| == 0, start);
    inp1, outp1, stack1, again, done, cb1 := r, outp, stack, false, false, cb;
    if |stack| > 0 {
      assert rule == PopUp;
      inp1, outp1, stack1, done := PopComponent(a, orig, n, start, r, outp, stack, cb);
      cb1 := outp1;
      again := !done;
    } else if a[start] == '/' && outp == start + 1 {
      assert rule == DropRootUp;
      TidiedFacts(a[..], orig, n, start, r, outp, stack, cb);
      DropKeeps(a[..], orig, n, start, r, r + 3, outp, stack, cb);
      DropRootUpFaithful(a[..], orig, n, start, r, outp, stack);
      inp1, again := r + 3, true;
    } else {
      assert rule == NoRule;
    }
  }

  /** A trailing "/." is dropped: the string ends where the output is. */
  method EndAtTrailingDot(a: array<char>, ghost orig: seq<char>, ghost n: nat, start: nat,
                          inp: nat, outp: nat, stack: seq<nat>, ghost cb: nat)
    requires Tidied(a[..], orig, n, start, inp, outp, stack, cb) && Faithful(a[..], orig, n, start, inp, outp, stack)
    requires a[inp] == '/' && inp + 2 <= n && a[inp + 1] == '.' && a[inp + 2] == EOS
    modifies a
    ensures a[..] == old(a[..])[outp := EOS]
    ensures Done(a[..], orig, n, start) && Means(a[..], orig, n, start)
  {
    ghost var s := a[..];
    a[outp] := EOS;
    FinishAt(s, a[..], orig, n, start, inp, outp, stack, cb);
    EndDotMeans(s, a[..], orig, n, start, inp, outp, stack, cb);
  }

  /**
   * "name/..": the output goes back to the last saved position; at the
   * end of the path the slash before it is cut off as well, unless that
   * would leave nothing after the root.
   */
  method PopComponent(a: array<char>, ghost orig: seq<char>, ghost n: nat, start: nat,
                      inp: nat, outp: nat, stack: seq<nat>, ghost cb: nat)
    returns (inp1: nat, outp1: nat, stack1: seq<nat>, done: bool)
    requires Tidied(a[..], orig, n, start, inp, outp, stack, cb) && Faithful(a[..], orig, n, start, inp, outp, stack)
    requires |stack| > 0
    requires a[inp] == '/' && inp + 3 <= n && a[inp + 1] == '.' && a[inp + 2] == '.'
    requires a[inp + 3] == '/' || a[inp + 3] == EOS
    requires !DotDotBefore(a[..], outp, start) && !DotDotSlashBefore(a[..], outp, start)
    modifies a
    ensures inp1 == inp + 3 && outp1 == stack[|stack| - 1] && stack1 == stack[..|stack| - 1]
    ensures done <==> old(a[inp + 3]) == EOS && outp1 > start + 1
    ensures done ==> a[..] == old(a[..])[outp1 - 1 := EOS] && Done(a[..], orig, n, start)
                     && Means(a[..], orig, n, start)
    ensures !done ==> a[..] == old(a[..]) && Tidied(a[..], orig, n, start, inp1, outp1, stack1, outp1)
                      && Faithful(a[..], orig, n, start, inp1, outp1, stack1)
  {
    ghost var s := a[..];
    PopFaithful(s, orig, n, start, inp, outp, stack, cb);
    outp1 := stack[|stack| - 1];
    stack1 := stack[..|stack| - 1];
    inp1 := inp + 3;
    done := false;
    if a[inp1] == EOS && outp1 > start + 1 {
      a[outp1 - 1] := EOS;
      PopDone(s, a[..], orig, n, start, inp, outp, stack, cb);
      done := true;
    } else {
      PopKeeps(s, orig, n, start, inp, outp, stack, cb);
    }
  }

  /** `while(in[1] == '/') in++`: the read pointer moves to the last slash of a run. */
  method SkipSlashRun(a: array<char>, ghost orig: seq<char>, ghost n: nat, start: nat,
                      inp: nat, outp: nat, stack: seq<nat>, ghost cb: nat) returns (inp1: nat)
    requires Tidied(a[..], orig, n, start, inp, outp, stack, cb) && Faithful(a[..], orig, n, start, inp, outp, stack)
    requires a[inp] == '/'
    ensures inp1 == SlashRunEnd(orig, n, inp)
    ensures Tidied(a[..], orig, n, start, inp1, outp, stack, cb) && Faithful(a[..], orig, n, start, inp1, outp, stack)
  {
    ghost var s := a[..];
    TidiedFacts(s, orig, n, start, inp, outp, stack, cb);
    inp1 := inp;
    while a[inp1 + 1] == '/'
      invariant a[..] == s && inp <= inp1 < n && orig[inp1] == '/'
      invariant SlashRunEnd(orig, n, inp1) == SlashRunEnd(orig, n, inp)
      decreases n - inp1
    {
      inp1 := inp1 + 1;
    }
    SlashRunKeeps(s, orig, n, start, inp, outp, stack, cb);
  }

  /** Reading on to the last '/' of a run keeps the state and the meaning: a run of '/' reads as one. */
  lemma {:induction false} SlashRunKeeps(s: seq<char>, orig: seq<char>, n: nat, start: nat,
                                         inp: nat, outp: nat, stack: seq<nat>, cb: nat)
    requires Tidied(s, orig, n, start, inp, outp, stack, cb) && Faithful(s, orig, n, start, inp, outp, stack)
    requires CStr(orig, n) && inp <= n && orig[inp] == '/' && s[inp] == '/'
    ensures var j := SlashRunEnd(orig, n, inp);
            Tidied(s, orig, n, start, j, outp, stack, cb) && Faithful(s, orig, n, start, j, outp, stack)
    decreases n - inp
  {
    TidiedFacts(s, orig, n, start, inp, outp, stack, cb);
    if orig[inp + 1] == '/' {
      DropKeeps(s, orig, n, start, inp, inp + 1, outp, stack, cb);
      SlashRunFaithful(s, orig, n, start, inp, outp, stack);
      SlashRunKeeps(s, orig, n, start, inp + 1, outp, stack, cb);
    }
  }

  /** strncpy(out, in, 3) of "/..": a `..` that follows `..` is kept. */
  method KeepDotDot(a: array<char>, ghost orig: seq<char>, ghost n: nat, start: nat,
                    inp: nat, outp: nat, stack: seq<nat>, ghost cb: nat) returns (inp1: nat, outp1: nat)
    requires Tidied(a[..], orig, n, start, inp, outp, stack, cb) && Faithful(a[..], orig, n, start, inp, outp, stack)
    requires a[inp] == '/' && inp + 3 <= n && a[inp + 1] == '.' && a[inp + 2] == '.'
    requires a[inp + 3] == '/' || a[inp + 3] == EOS
    requires DotDotBefore(a[..], outp, start)
    modifies a
    ensures inp1 == inp + 3 && outp1 == outp + 3
    ensures a[..] == old(a[..])[outp := '/'][outp + 1 := '.'][outp + 2 := '.']
    ensures Tidied(a[..], orig, n, start, inp1, outp1, stack, outp + 1)
            && Faithful(a[..], orig, n, start, inp1, outp1, stack)
  {
    ghost var s := a[..];
    a[outp] := '/';
    a[outp + 1] := '.';
    a[outp + 2] := '.';
    inp1, outp1 := inp + 3, outp + 3;
    ghost var t := a[..];
    assert t == s[outp := '/'][outp + 1 := '.'][outp + 2 := '.'];
    KeepKeeps(s, t, orig, n, start, inp, outp, stack, cb);
    KeepFaithful(s, t, orig, n, start, inp, outp, stack, cb);
  }

  /**
   * A `..` read when the output ends in a "../" that a pop went back to:
   * it is kept too, by writing ".." after that '/'.
   */
  method KeepDotDotAfterPop(a: array<char>, ghost orig: seq<char>, ghost n: nat, start: nat,
                            inp: nat, outp: nat, stack: seq<nat>, ghost cb: nat) returns (inp1: nat, outp1: nat)
    requires Tidied(a[..], orig, n, start, inp, outp, stack, cb) && Faithful(a[..], orig, n, start, inp, outp, stack)
    requires a[inp] == '/' && inp + 3 <= n && a[inp + 1] == '.' && a[inp + 2] == '.'
    requires a[inp + 3] == '/' || a[inp + 3] == EOS
    requires DotDotSlashBefore(a[..], outp, start)
    modifies a
    ensures inp1 == inp + 3 && outp1 == outp + 2
    ensures a[..] == old(a[..])[outp := '.'][outp + 1 := '.']
    ensures Tidied(a[..], orig, n, start, inp1, outp1, stack, outp)
            && Faithful(a[..], orig, n, start, inp1, outp1, stack)
  {
    ghost var s := a[..];
    TidiedFacts(s, orig, n, start, inp, outp, stack, cb);
    a[outp] := '.';
    a[outp + 1] := '.';
    inp1, outp1 := inp + 3, outp + 2;
    ghost var t := a[..];
    assert t == s[outp := '.'][outp + 1 := '.'];
    KeepAfterPopKeeps(s, t, orig, n, start, inp, outp, stack, cb);
    KeepAfterPopFaithful(s, t, orig, n, start, inp, outp, stack, cb);
  }

  /** The `again:` loop, ending when no rule applies any more. */
  method AgainLoop(a: array<char>, ghost orig: seq<char>, ghost n: nat, start: nat,
                   inp: nat, outp: nat, stack: seq<nat>, ghost cb: nat)
    returns (inp1: nat, outp1: nat, stack1: seq<nat>, done: bool, ghost cb1: nat)
    requires Tidied(a[..], orig, n, start, inp, outp, stack, cb) && Faithful(a[..], orig, n, start, inp, outp, stack)
    requires a[inp] == '/'
    modifies a
    ensures done ==> Done(a[..], orig, n, start) && Means(a[..], orig, n, start)
    ensures !done ==> Tidied(a[..], orig, n, start, inp1, outp1, stack1, cb1)
                      && Faithful(a[..], orig, n, start, inp1, outp1, stack1)
    ensures !done ==> inp < inp1 || (inp1 == inp && a[inp1] == '/')
    ensures !done ==> a[inp1] == EOS
                      || (a[inp1] == '/' && a[inp1 + 1] != '/' && RuleAt(a[..], inp1, outp1, |stack1| == 0, start) == NoRule)
  {
    inp1, outp1, stack1, done, cb1 := inp, outp, stack, false, cb;
    var again := true;
    while again
      invariant Tidied(a[..], orig, n, start, inp1, outp1, stack1, cb1)
      invariant Faithful(a[..], orig, n, start, inp1, outp1, stack1)
      invariant a[inp1] == '/' || a[inp1] == EOS
      invariant inp < inp1 || (inp1 == inp && a[inp1] == '/')
      invariant !again ==> a[inp1] == '/' && a[inp1 + 1] != '/' && RuleAt(a[..], inp1, outp1, |stack1| == 0, start) == NoRule
      decreases n - inp1, again
    {
      if a[inp1] == EOS {
        break;
      }
      var i2, o2, st2, ag, dn;
      ghost var cb2;
      i2, o2, st2, ag, dn, cb2 := AgainStep(a, orig, n, start, inp1, outp1, stack1, cb1);
      if dn {
        return i2, o2, st2, true, cb2;
      }
      inp1, outp1, stack1, again, cb1 := i2, o2, st2, ag, cb2;
    }
  }

  /** One pass of the `again:` block: the run of slashes, then the rule at its last one. */
  method AgainStep(a: array<char>, ghost orig: seq<char>, ghost n: nat, start: nat,
                   inp: nat, outp: nat, stack: seq<nat>, ghost cb: nat)
    returns (inp1: nat, outp1: nat, stack1: seq<nat>, again: bool, done: bool, ghost cb1: nat)
    requires Tidied(a[..], orig, n, start, inp, outp, stack, cb) && Faithful(a[..], orig, n, start, inp, outp, stack)
    requires a[inp] == '/'
    modifies a
    ensures done ==> Done(a[..], orig, n, start) && Means(a[..], orig, n, start)
    ensures !done ==> Tidied(a[..], orig, n, start, inp1, outp1, stack1, cb1)
                      && Faithful(a[..], orig, n, start, inp1, outp1, stack1)
    ensures !done ==> (a[inp1] == '/' || a[inp1] == EOS) && inp <= inp1
    ensures again ==> !done && inp < inp1
    ensures !done && !again ==> a[inp1] == '/' && a[inp1 + 1] != '/'
                                && RuleAt(a[..], inp1, outp1, |stack1| == 0, start) == NoRule
  {
    var r := SkipSlashRun(a, orig, n, start, inp, outp, stack, cb);
    inp1, outp1, stack1, again, done, cb1 := ApplyRule(a, orig, n, start, r, outp, stack, cb);
  }

  /**
   * The handling of one '/' of the input: the `again:` rules, then the
   * slash itself is consumed and written unless the output already ends in
   * one, and the output position is saved.
   */
  method SlashStep(a: array<char>, ghost orig: seq<char>, ghost n: nat, start: nat,
                   inp: nat, outp: nat, stack: seq<nat>, ghost cb: nat)
    returns (inp1: nat, outp1: nat, stack1: seq<nat>, done: bool, ghost cb1: nat)
    requires Tidied(a[..], orig, n, start, inp, outp, stack, cb) && Faithful(a[..], orig, n, start, inp, outp, stack)
    requires a[inp] == '/'
    modifies a
    ensures done ==> Done(a[..], orig, n, start) && Means(a[..], orig, n, start)
    ensures !done ==> Tidied(a[..], orig, n, start, inp1, outp1, stack1, cb1) && inp < inp1
                      && Faithful(a[..], orig, n, start, inp1, outp1, stack1)
    ensures !done ==> |stack1| > 0 && stack1[|stack1| - 1] == outp1
    ensures !done && a[inp1] != EOS ==> Boundary(a[..], start, outp1) && cb1 == outp1
  {
    inp1, outp1, stack1, done, cb1 := AgainLoop(a, orig, n, start, inp, outp, stack, cb);
    if done {
      return;
    }
    TidiedFacts(a[..], orig, n, start, inp1, outp1, stack1, cb1);
    if a[inp1] != EOS {
      ghost var s := a[..];
      ghost var o := outp1;
      if outp1 > 0 && a[outp1 - 1] != '/' {
        a[outp1] := '/';
        outp1 := outp1 + 1;
      }
      SlashTailKeeps(s, a[..], orig, n, start, inp1, o, stack1, cb1, outp1);
      TailFaithful(s, a[..], orig, n, start, inp1, o, stack1, cb1, outp1);
      inp1 := inp1 + 1;
      cb1 := outp1;
    } else {
      PushAtEnd(a[..], orig, n, start, inp1, outp1, stack1, cb1);
      PushFaithful(a[..], orig, n, start, inp1, outp1, stack1, outp1);
    }
    stack1 := stack1 + [outp1];
  }

  /**
   * The two skip loops before the first character is written.  After a
   * "./" the slashes that follow are skipped too, so that a relative path
   * is not left starting with '/'.
   */
  method SkipLeading(a: array<char>, ghost n: nat, start: nat) returns (inp: nat)
    requires CStr(a[..], n) && start <= n
    ensures start <= inp <= n && inp == StripLeading(a[..], start)
    ensures a[inp] == '/' <==> a[start] == '/'
  {
    inp := start;
    while a[inp] == '/' && a[inp + 1] == '.' && a[inp + 2] == '.' && a[inp + 3] == '/'
      invariant start <= inp <= n
      invariant SkipRootDotDot(a[..], inp) == SkipRootDotDot(a[..], start)
      invariant a[start] == '/' ==> a[inp] == '/'
      invariant inp == start || a[inp] == '/'
      decreases n - inp
    {
      inp := inp + 3;
    }
    while a[inp] == '.' && a[inp + 1] == '/'
      invariant start <= inp <= n
      invariant SkipDotSlash(a[..], inp) == StripLeading(a[..], start)
      invariant a[start] == '/' ==> a[inp] == '/'
      invariant a[start] != '/' ==> a[inp] != '/'
      decreases n - inp
    {
      inp := inp + 2;
      while a[inp] == '/'
        invariant start + 2 <= inp <= n
        invariant SkipDotSlash(a[..], SkipSlashes(a[..], inp)) == StripLeading(a[..], start)
        invariant a[start] != '/'
        decreases n - inp
      {
        inp := inp + 1;
      }
    }
  }

  /** The main loop: characters are copied, slashes handled by SlashStep, until the NUL is copied. */
  method Rewrite(a: array<char>, ghost orig: seq<char>, ghost n: nat, start: nat,
                 inp0: nat, outp0: nat, stack0: seq<nat>, ghost cb0: nat)
    requires Tidied(a[..], orig, n, start, inp0, outp0, stack0, cb0) && |stack0| > 0
    requires Faithful(a[..], orig, n, start, inp0, outp0, stack0)
    modifies a
    ensures Done(a[..], orig, n, start) && Means(a[..], orig, n, start)
  {
    var inp: nat, outp: nat, stack: seq<nat> := inp0, outp0, stack0;
    ghost var cb := cb0;
    while a[inp] != EOS
      invariant Tidied(a[..], orig, n, start, inp, outp, stack, cb) && |stack| > 0
      invariant Faithful(a[..], orig, n, start, inp, outp, stack)
      decreases n - inp
    {
      if a[inp] == '/' {
        var done;
        inp, outp, stack, done, cb := SlashStep(a, orig, n, start, inp, outp, stack, cb);
        if done {
          return;
        }
      } else {
        ghost var s := a[..];
        a[outp] := a[inp];
        CopyKeeps(s, a[..], orig, n, start, inp, outp, stack, cb);
        CopyFaithful(s, a[..], orig, n, start, inp, outp, stack, cb);
        outp, inp := outp + 1, inp + 1;
      }
    }
    ghost var s := a[..];
    TidiedFacts(s, orig, n, start, inp, outp, stack, cb);
    a[outp] := a[inp];
    FinishAt(s, a[..], orig, n, start, inp, outp, stack, cb);
    FinishMeans(s, a[..], orig, n, start, inp, outp, stack, cb);
  }

  /**
   * canonicaliseFileName(): removes redundant "/", "/./", a trailing "/."
   * and "name/.." in place.  The result is never longer than the path, the
   * buffer is not touched past the old string (so rewriting in place is
   * safe), an IRI's "scheme://" is kept, no "//" is left, the result is
   * absolute exactly when the path was, it is in normal form (no "."
   * component unless it is all of the path, and ".." only in a leading run
   * of "../"), and it names what the path named, read lexically.
   * file_name_is_iri() is not part of this model: `sl` is its result.
   */
  method CanonicaliseFileName(a: array<char>, sl: nat)
    requires EOS in a[..]
    requires sl > 0 ==> sl + 3 <= StrLen(a[..]) && a[sl] == ':' && a[sl + 1] == '/' && a[sl + 2] == '/'
    modifies a
    ensures EOS in a[..]
    ensures IriStart(sl) <= StrLen(a[..]) <= StrLen(old(a[..]))
    ensures forall k :: StrLen(old(a[..])) < k < a.Length ==> a[k] == old(a[k])
    ensures a[..IriStart(sl)] == old(a[..IriStart(sl)])
    ensures NoDoubleSlash(a[..], IriStart(sl), StrLen(a[..]))
    ensures a[IriStart(sl)] == '/' <==> old(a[IriStart(sl)]) == '/'
    ensures Canonical(a[..], IriStart(sl), StrLen(a[..]))
    ensures Names(a[IriStart(sl)..StrLen(a[..])]) == Names(old(a[..])[IriStart(sl)..StrLen(old(a[..]))])
  {
    ghost var orig := a[..];
    ghost var n := StrLen(orig);
    var start: nat := if sl > 0 then sl + 3 else 0;
    var inp := SkipLeading(a, n, start);
    var outp: nat := start;
    if a[inp] == '/' {
      a[outp] := '/';
      outp := outp + 1;
    }
    assert a[..] == orig;
    Initial(orig, n, start, inp);
    InitialFaithful(orig, n, start, inp);
    Rewrite(a, orig, n, start, inp, outp, [outp], outp);
    MeansNames(a[..], orig, n, start);
    assert a[n + 1..] == orig[n + 1..];
  }

  /*****************************************************************
   * A `..` kept as written
   *****************************************************************/

  /**
   * As written, the branch that keeps a `..` does not go back to `again:`:
   * the main loop goes on, and the '/' step that follows consumes the next
   * '/' and writes it, so reading resumes after it without the rules.
   */
  function KeepResumeAsWritten(s: seq<char>, inp: nat): (r: nat)
    requires inp + 3 < |s|
    ensures r == inp + 3 || (r == inp + 4 && s[inp + 3] == '/')
  {
    if s[inp + 3] == '/' then inp + 4 else inp + 3
  }

  /**
   * "../.././x": the second `..` is kept, reading resumes at the "./" at 6
   * and the loop copies it, giving "../.././x"; going back to `again:`
   * instead, the "/./" at 5 is dropped.
   */
  lemma KeptDotDotSkipsRules()
    ensures var s := ['.', '.', '/', '.', '.', '/', '.', '/', 'x', EOS];
            RuleAt(s, 2, 2, false, 0) == KeepUp
            && KeepResumeAsWritten(s, 2) == 6 && s[6] == '.' && s[7] == '/'
            && RuleAt(s, 7, 7, false, 0) == NoRule
            && RuleAt(s, 5, 5, false, 0) == DropDot
  {
  }
}
