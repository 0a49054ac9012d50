/*
 * The small registries and string helpers of the foreign interface:
 * the abort-hook and initialise-hook lists (src/pl-fli.c:5143-5241), the
 * page cache of codeToAtom() (src/pl-fli.c:3246-3297), PL_free_blob(),
 * PL_cvt_set_encoding(), PL_quote(), compareUCSAtom() and charCode().
 */
module FliRegistry {

  import opened Seqs

  /*****************************************************************
   * Abort and initialise hooks
   *****************************************************************/

  /** A hook function, by its address; 0 is NULL. */
  type HookFn = nat

  /** The hooks resetForeign() calls: every non-NULL one, in order. */
  function NonNull(s: seq<HookFn>): (r: seq<HookFn>)
    ensures |r| <= |s|
    ensures forall k :: 0 <= k < |r| ==> r[k] != 0
  {
    if s == [] then [] else (if s[0] != 0 then [s[0]] else []) + NonNull(s[1..])
  }

  lemma NonNullStep(s: seq<HookFn>, i: nat)
    requires i < |s|
    ensures NonNull(s[i..]) == (if s[i] != 0 then [s[i]] else []) + NonNull(s[i + 1..])
  {
    assert s[i..][1..] == s[i + 1..];
  }

  /** The abort hooks of an engine, from abort_head to abort_tail. */
  class AbortHooks {
    var hooks: seq<HookFn>

    constructor ()
      ensures hooks == []
    {
      hooks := [];
    }

    /** PL_abort_hook(): the hook goes at the tail, so hooks run in the order they were added. */
    method Hook(f: HookFn)
      modifies this
      ensures hooks == old(hooks) + [f]
    {
      hooks := hooks + [f];
    }

    /**
     * PL_abort_unhook(): unlinks the first node holding f and succeeds, or
     * fails when there is none; the other hooks keep their order.
     */
    method Unhook(f: HookFn) returns (found: bool)
      modifies this
      ensures found <==> f in old(hooks)
      ensures hooks == RemoveFirst(old(hooks), f)
      ensures multiset(hooks) == multiset(old(hooks)) - multiset{f}
    {
      var i := 0;
      while i < |hooks|
        invariant i <= |hooks|
        invariant forall k :: 0 <= k < i ==> hooks[k] != f
      {
        if hooks[i] == f {
          RemoveFirstSplit(hooks, f, i);
          RemoveFirstMultiset(hooks, f, i);
          hooks := hooks[..i] + hooks[i + 1..];
          return true;
        }
        i := i + 1;
      }
      return false;
    }

    /** resetForeign(): calls the non-NULL hooks from head to tail; the result is the calls made. */
    method Run() returns (called: seq<HookFn>)
      ensures called == NonNull(hooks)
    {
      var hs := hooks;
      called := [];
      var i := 0;
      while i < |hs|
        invariant i <= |hs|
        invariant called + NonNull(hs[i..]) == NonNull(hs)
      {
        NonNullStep(hs, i);
        if hs[i] != 0 {
          called := called + [hs[i]];
        }
        i := i + 1;
      }
      assert hs[i..] == [];
    }

    /** cleanAbortHooks(): every node is freed and the list is empty. */
    method Clean()
      modifies this
      ensures hooks == []
    {
      hooks := [];
    }
  }

  /** No hook appears twice. */
  predicate NoDuplicates(s: seq<HookFn>) {
    forall i, j :: 0 <= i < j < |s| ==> s[i] != s[j]
  }

  /** The process-wide initialise hooks, from initialise_head to initialise_tail. */
  class InitialiseHooks {
    var hooks: seq<HookFn>

    constructor ()
      ensures hooks == [] && NoDuplicates(hooks)
    {
      hooks := [];
    }

    /**
     * PL_initialise_hook(): a hook already in the list is left where it
     * is; a new one goes at the tail.  So the list never holds a hook twice.
     */
    method Hook(f: HookFn)
      modifies this
      ensures f in old(hooks) ==> hooks == old(hooks)
      ensures f !in old(hooks) ==> hooks == old(hooks) + [f]
      ensures NoDuplicates(old(hooks)) ==> NoDuplicates(hooks)
    {
      var i := 0;
      while i < |hooks|
        invariant i <= |hooks|
        invariant forall k :: 0 <= k < i ==> hooks[k] != f
      {
        if hooks[i] == f {
          return;
        }
        i := i + 1;
      }
      hooks := hooks + [f];
    }
  }

  /*****************************************************************
   * codeToAtom() and charCode()
   *****************************************************************/

  /** The blob types an atom can have here: ordinary text, UCS text (PL_BLOB_TEXT|PL_BLOB_WCHAR), or no text. */
  datatype BlobKind = TextAtom | UcsAtom | OtherBlob

  /**
   * An atom: its blob type and its units, bytes for a text atom and wide
   * characters (4 bytes each) for a UCS atom.
   */
  datatype AtomRec = AtomRec(kind: BlobKind, units: seq<int>)

  const WCHAR_BYTES: nat := 4
  const EOF: int := -1
  const PAGE_SIZE: nat := 256
  const CACHED_CODES: nat := 0x8000                       // 1<<15
  const PAGES: nat := CACHED_CODES / PAGE_SIZE

  /** a->length, in bytes. */
  function ByteLength(a: AtomRec): nat {
    if a.kind == UcsAtom then WCHAR_BYTES * |a.units| else |a.units|
  }

  /** ATOM_end_of_file. */
  const END_OF_FILE: AtomRec :=
    AtomRec(TextAtom, [101, 110, 100, 95, 111, 102, 95, 102, 105, 108, 101])

  /**
   * uncachedCodeToAtom(): a one-byte text atom below 256, otherwise a UCS
   * atom of one wide character (lookupAtom() and lookupBlob() give the
   * same atom for the same text, so the atom is its text).
   */
  function UncachedCodeToAtom(code: nat): (a: AtomRec)
    ensures a.kind != OtherBlob && |a.units| == 1
  {
    if code < 256 then AtomRec(TextAtom, [code]) else AtomRec(UcsAtom, [code])
  }

  /**
   * charCode() on an atom (None for a word that is not an atom): the code
   * of a one-character text, otherwise -1.  Only the 4-byte wchar_t branch
   * is modelled.
   */
  function CharCode(w: Option<AtomRec>): (r: int)
    ensures r >= -1
    ensures r >= 0 ==> w.Some? && w.value.kind != OtherBlob && |w.value.units| == 1
  {
    match w
    case None => -1
    case Some(a) =>
      if ByteLength(a) == 1 && a.kind != OtherBlob then a.units[0] % 256
      else if ByteLength(a) == WCHAR_BYTES && a.kind == UcsAtom then
        (if a.units[0] >= 0 then a.units[0] else -1)
      else -1
  }

  datatype Option<T> = None | Some(value: T)

  /** charCode() reads back the code codeToAtom() made an atom of, and EOF stays EOF. */
  lemma CharCodeRoundTrip(code: int)
    requires code >= EOF
    ensures code >= 0 ==> CharCode(Some(UncachedCodeToAtom(code))) == code
    ensures CharCode(Some(END_OF_FILE)) == EOF
  {
  }

  /** A cache page: 256 entries, each empty (0) or the atom of its code. */
  type Page = seq<Option<AtomRec>>

  /** GD->atoms.for_code: 128 pages, allocated on first use. */
  class CodeAtomCache {
    var pages: seq<Option<Page>>

    /** Every page has 256 entries and every filled entry holds the atom of its code. */
    ghost predicate Valid()
      reads this
    {
      |pages| == PAGES
      && forall p :: 0 <= p < PAGES && pages[p].Some? ==>
           |pages[p].value| == PAGE_SIZE
           && forall e :: 0 <= e < PAGE_SIZE && pages[p].value[e].Some? ==>
                pages[p].value[e].value == UncachedCodeToAtom(p * PAGE_SIZE + e)
    }

    constructor ()
      ensures Valid() && forall p :: 0 <= p < PAGES ==> pages[p].None?
    {
      pages := seq(PAGES, p => None);
    }

    /**
     * codeToAtom(): EOF gives end_of_file; a code below 1<<15 is looked up
     * in its page (allocating it, all empty, on first use) and filled in
     * on a miss; a larger code is not cached.  The atom is the same either
     * way, and only the entry of the code changes.
     */
    method CodeToAtom(code: int) returns (a: AtomRec)
      requires Valid() && code >= EOF
      modifies this
      ensures Valid()
      ensures code == EOF ==> a == END_OF_FILE
      ensures code >= 0 ==> a == UncachedCodeToAtom(code) && CharCode(Some(a)) == code
      ensures 0 <= code < CACHED_CODES ==>
                pages[code / PAGE_SIZE].Some? && pages[code / PAGE_SIZE].value[code % PAGE_SIZE] == Some(a)
      ensures forall p, e :: (0 <= p < PAGES && 0 <= e < PAGE_SIZE && p * PAGE_SIZE + e != code
                && old(pages[p]).Some? && old(pages[p].value[e]).Some?) ==>
                pages[p].Some? && pages[p].value[e] == old(pages[p].value[e])
    {
      if code == EOF {
        return END_OF_FILE;
      }
      if code < CACHED_CODES {
        var page := code / PAGE_SIZE;
        var entry := code % PAGE_SIZE;
        if pages[page].None? {
          pages := pages[page := Some(seq(PAGE_SIZE, e => None))];
        }
        var pv := pages[page].value;
        if pv[entry].Some? {
          a := pv[entry].value;
        } else {
          a := UncachedCodeToAtom(code);
          pages := pages[page := Some(pv[entry := Some(a)])];
        }
      } else {
        a := UncachedCodeToAtom(code);
      }
      CharCodeRoundTrip(code);
    }
  }

  /*****************************************************************
   * PL_free_blob() and PL_cvt_set_encoding()
   *****************************************************************/

  /** A blob atom: its type's flags and release hook, and its data. */
  class Blob {
    const noCopy: bool        // PL_BLOB_NOCOPY
    const hasRelease: bool    // type->release != NULL
    var hasName: bool         // x->name != NULL
    var length: nat

    constructor (noCopy0: bool, hasRelease0: bool, length0: nat)
      ensures noCopy == noCopy0 && hasRelease == hasRelease0 && hasName && length == length0
    {
      noCopy := noCopy0;
      hasRelease := hasRelease0;
      hasName := true;
      length := length0;
    }

    /**
     * PL_free_blob(): a no-copy blob with a release hook and data still
     * attached is released when the hook agrees (`released`), which
     * detaches the data; anything else fails and changes nothing.  So a
     * blob is released at most once.
     */
    method Free(released: bool) returns (ok: bool)
      modifies this
      ensures ok <==> noCopy && hasRelease && old(hasName) && released
      ensures ok ==> !hasName && length == 0
      ensures !ok ==> hasName == old(hasName) && length == old(length)
    {
      if noCopy && hasRelease && hasName {
        if released {
          length := 0;
          hasName := false;
          return true;
        }
      }
      return false;
    }
  }

  /** The REP_* encodings, and any other number a caller passes. */
  datatype RepEncoding = RepIsoLatin1 | RepUtf8 | RepMb | RepOther(code: int)

  /** sp_encoding, the encoding of the PL_cvt_*() text conversions. */
  class CvtSettings {
    var spEncoding: RepEncoding

    constructor ()
      ensures spEncoding == RepUtf8
    {
      spEncoding := RepUtf8;
    }

    /** PL_cvt_set_encoding(): only the three REP_* encodings are accepted. */
    method SetEncoding(enc: RepEncoding) returns (ok: bool)
      modifies this
      ensures ok <==> !enc.RepOther?
      ensures spEncoding == (if ok then enc else old(spEncoding))
    {
      match enc
      case RepIsoLatin1 => spEncoding := enc; return true;
      case RepUtf8 => spEncoding := enc; return true;
      case RepMb => spEncoding := enc; return true;
      case RepOther(_) => return false;
    }
  }

  /*****************************************************************
   * PL_quote()
   *****************************************************************/

  /** The text between the quotes: every quote character doubled. */
  function QuoteBody(q: char, s: string): (r: string)
    ensures |r| >= |s|
  {
    if s == [] then []
    else (if s[0] == q then [q, q] else [s[0]]) + QuoteBody(q, s[1..])
  }

  /** The quoted text PL_quote() returns. */
  function Quoted(q: char, s: string): string {
    [q] + QuoteBody(q, s) + [q]
  }

  /** A C string of bytes. */
  predicate Bytes(s: string) {
    forall i :: 0 <= i < |s| ==> (s[i] as int) < 256
  }

  /** `(char)chr`: the byte PL_quote() writes for the int chr. */
  function QuoteByte(chr: int): (c: char)
    ensures (c as int) < 256 && (c as int) % 256 == chr % 256
  {
    (chr % 256) as char
  }

  /** The value of a byte in `*s == chr`: a plain char is signed or not, as the platform decides. */
  function ByteAsSeen(c: char, charIsSigned: bool): (v: int)
    requires (c as int) < 256
    ensures v % 256 == c as int
  {
    if charIsSigned && c as int >= 128 then c as int - 256 else c as int
  }

  /** The ints a plain char compares equal to. */
  predicate SeenRange(chr: int, charIsSigned: bool) {
    if charIsSigned then -128 <= chr < 128 else 0 <= chr < 256
  }

  /** The body PL_quote() builds: `(char)chr` is added before each byte that compares equal to chr. */
  function QuoteBodyAsSeen(chr: int, s: string, charIsSigned: bool): (r: string)
    requires Bytes(s)
    ensures |r| >= |s|
  {
    if s == [] then []
    else (if ByteAsSeen(s[0], charIsSigned) == chr then [QuoteByte(chr), s[0]] else [s[0]])
         + QuoteBodyAsSeen(chr, s[1..], charIsSigned)
  }

  /** Where chr is a value a char can compare equal to, each byte equal to the quote byte is doubled. */
  lemma {:induction false} QuoteBodyAgrees(chr: int, s: string, charIsSigned: bool)
    requires Bytes(s) && SeenRange(chr, charIsSigned)
    ensures QuoteBodyAsSeen(chr, s, charIsSigned) == QuoteBody(QuoteByte(chr), s)
  {
    if s != [] {
      QuoteBodyAgrees(chr, s[1..], charIsSigned);
      assert ByteAsSeen(s[0], charIsSigned) == chr <==> s[0] == QuoteByte(chr);
    }
  }

  /** With a signed char, a quote code from 128 to 255 never compares equal to a byte, so nothing is doubled. */
  lemma {:induction false} HighQuoteNeverDoubled(chr: int, s: string)
    requires Bytes(s) && 128 <= chr < 256
    ensures QuoteBodyAsSeen(chr, s, true) == s
  {
    if s != [] {
      HighQuoteNeverDoubled(chr, s[1..]);
      assert s == [s[0]] + s[1..];
    }
  }

  /**
   * PL_quote(): the buffer holds the quote byte, the bytes of s with the
   * quote byte added before each byte that compares equal to chr, the
   * quote byte and the terminating NUL.  s is a C string, so it holds no
   * NUL.  For the quotes callers pass, this is Quoted().
   */
  method Quote(chr: int, s: string, charIsSigned: bool) returns (buf: string)
    requires '\0' !in s && Bytes(s)
    ensures buf == [QuoteByte(chr)] + QuoteBodyAsSeen(chr, s, charIsSigned) + [QuoteByte(chr), '\0']
    ensures SeenRange(chr, charIsSigned) ==> buf == Quoted(QuoteByte(chr), s) + ['\0']
  {
    var q := QuoteByte(chr);
    buf := [q];
    var i := 0;
    while i < |s|
      invariant i <= |s|
      invariant buf + QuoteBodyAsSeen(chr, s[i..], charIsSigned) == [q] + QuoteBodyAsSeen(chr, s, charIsSigned)
    {
      assert s[i..] == [s[i]] + s[i + 1..];
      if ByteAsSeen(s[i], charIsSigned) == chr {
        buf := buf + [q];
      }
      buf := buf + [s[i]];
      i := i + 1;
    }
    buf := buf + [q, '\0'];
    if SeenRange(chr, charIsSigned) {
      QuoteBodyAgrees(chr, s, charIsSigned);
    }
  }

  /** Reading quoted text back: a doubled quote is one quote, a single one ends the text. */
  function Unquote(q: char, t: string): (r: Option<string>)
    decreases |t|
  {
    if t == [] then None
    else if t[0] != q then
      match Unquote(q, t[1..])
      case Some(rest) => Some([t[0]] + rest)
      case None => None
    else if t == [q] then Some([])
    else if t[1] == q then
      match Unquote(q, t[2..])
      case Some(rest) => Some([q] + rest)
      case None => None
    else None
  }

  /** PL_quote() loses nothing: the text between the quotes reads back as s. */
  lemma {:induction false} UnquoteQuoteBody(q: char, s: string)
    ensures Unquote(q, QuoteBody(q, s) + [q]) == Some(s)
  {
    if s != [] {
      UnquoteQuoteBody(q, s[1..]);
      var tail := QuoteBody(q, s[1..]) + [q];
      if s[0] == q {
        assert QuoteBody(q, s) + [q] == [q, q] + tail;
        assert ([q, q] + tail)[2..] == tail;
      } else {
        assert QuoteBody(q, s) + [q] == [s[0]] + tail;
        assert ([s[0]] + tail)[1..] == tail;
      }
      assert s == [s[0]] + s[1..];
    }
  }

  lemma QuoteRoundTrip(q: char, s: string)
    ensures Quoted(q, s)[0] == q
    ensures Unquote(q, Quoted(q, s)[1..]) == Some(s)
  {
    UnquoteQuoteBody(q, s);
    assert Quoted(q, s)[1..] == QuoteBody(q, s) + [q];
  }

  /*****************************************************************
   * compareUCSAtom()
   *****************************************************************/

  /** A wide character of a UCS atom. */
  type CodePoint = c: int | 0 <= c <= 0x10FFFF

  /** The order compareUCSAtom() implements: the first differing character, else the length. */
  function CompareCodes(s1: seq<CodePoint>, s2: seq<CodePoint>): (r: int)
    ensures r in {-1, 0, 1}
    ensures r == 0 <==> s1 == s2
  {
    if s1 == [] || s2 == [] then
      (if |s1| < |s2| then -1 else if |s1| > |s2| then 1 else 0)
    else if s1[0] != s2[0] then (if s1[0] < s2[0] then -1 else 1)
    else
      var r := CompareCodes(s1[1..], s2[1..]);
      assert s1 == [s1[0]] + s1[1..] && s2 == [s2[0]] + s2[1..];
      r
  }

  /** The order is antisymmetric. */
  lemma {:induction false} CompareCodesAntisymmetric(s1: seq<CodePoint>, s2: seq<CodePoint>)
    ensures CompareCodes(s1, s2) == -CompareCodes(s2, s1)
  {
    if s1 != [] && s2 != [] && s1[0] == s2[0] {
      CompareCodesAntisymmetric(s1[1..], s2[1..]);
    }
  }

  /** A proper prefix sorts first. */
  lemma {:induction false} CompareCodesPrefix(s1: seq<CodePoint>, s2: seq<CodePoint>)
    requires |s1| < |s2| && s1 == s2[..|s1|]
    ensures CompareCodes(s1, s2) == -1
  {
    if s1 != [] {
      assert s1[1..] == s2[1..][..|s1| - 1];
      CompareCodesPrefix(s1[1..], s2[1..]);
    }
  }

  /**
   * compareUCSAtom(): the loop over the first min(length) characters,
   * then SCALAR_TO_CMP() of the byte lengths.
   */
  method CompareUCSAtom(s1: seq<CodePoint>, s2: seq<CodePoint>) returns (r: int)
    ensures r == CompareCodes(s1, s2)
  {
    var len := if |s1| < |s2| then |s1| else |s2|;
    var i := 0;
    while i < len
      invariant i <= len
      invariant s1[..i] == s2[..i]
      invariant CompareCodes(s1, s2) == CompareCodes(s1[i..], s2[i..])
    {
      if s1[i] != s2[i] {
        var d := (s1[i] as int) - (s2[i] as int);
        return if d < 0 then -1 else 1;
      }
      assert s1[i..][1..] == s1[i + 1..] && s2[i..][1..] == s2[i + 1..];
      assert s1[..i + 1] == s1[..i] + [s1[i]];
      assert s2[..i + 1] == s2[..i] + [s2[i]];
      i := i + 1;
    }
    var b1 := WCHAR_BYTES * |s1|;
    var b2 := WCHAR_BYTES * |s2|;
    r := if b1 < b2 then -1 else if b1 > b2 then 1 else 0;
  }
}
