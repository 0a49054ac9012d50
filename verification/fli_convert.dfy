/*
 * The small-integer conversions of the foreign interface (src/pl-fli.c:1152-1231):
 * PL_cvt_i_schar(), PL_cvt_i_uchar(), PL_cvt_i_char(), PL_cvt_i_short() and
 * PL_cvt_i_ushort(), on the dereferenced word of the handle.  A value in
 * range converts; a one-character ISO Latin-1 text converts to its code (for
 * the char variants only); any other integer is a representation error and
 * anything else a type error.
 */
module FliConvert {

  import opened FliCells

  const SCHAR_MIN: int := -128
  const SCHAR_MAX: int := 127
  const UCHAR_MAX: int := 255
  const SHORT_MIN: int := -32768
  const SHORT_MAX: int := 32767
  const USHORT_MAX: int := 2 * SHORT_MAX + 1

  /** The two errors the converters raise: representation_error(What) and type_error(integer, _). */
  datatype CvtError = RepresentationError(what: string) | TypeError(expected: string)

  /** true with the value stored through the output pointer, or false with the error raised. */
  datatype CvtResult = Converted(v: int) | Failed(err: CvtError)

  /** The two ranges _PL_cvt_i_char() is called with. */
  predicate CharRange(mn: int, mx: int) {
    (mn == SCHAR_MIN && mx == SCHAR_MAX) || (mn == 0 && mx == UCHAR_MAX)
  }

  /** The two ranges _PL_cvt_i_short() is called with. */
  predicate ShortRange(mn: int, mx: int) {
    (mn == SHORT_MIN && mx == SHORT_MAX) || (mn == 0 && mx == USHORT_MAX)
  }

  /**
   * The text PL_get_text(CVT_ATOM|CVT_STRING|CVT_LIST) finds in a word: the
   * name of a text atom, the characters of a string, or, for a list cell or
   * [], the text of a code or character list.  Reading a list needs the
   * heap and the text pipeline, which are not part of this model, so that
   * text is a parameter.
   */
  function WordText(w: Cell, listText: Option<string>): (r: Option<string>)
    ensures IsInteger(w) ==> r.None?
    ensures w.Atom? && w.text ==> r == Some(w.name)
  {
    if w.Atom? && w.text then Some(w.name)
    else if w.Indirect? && w.kind.IString? then Some(w.kind.s)
    else if w.Compound? || w == NIL then listText
    else None
  }

  /** A text of length 1 held in ISO Latin-1: its only character is below 256. */
  predicate OneLatin1Char(t: string) { |t| == 1 && (t[0] as int) < 256 }

  /** The byte `*c = txt.text.t[0]` stores, as the caller's signed or unsigned char reads it. */
  function CharAsSeen(code: int, mn: int): (r: int)
    requires 0 <= code < 256
    ensures mn < 0 ==> SCHAR_MIN <= r <= SCHAR_MAX && r % 256 == code
    ensures mn >= 0 ==> r == code
  {
    if mn < 0 && code > SCHAR_MAX then code - 256 else code
  }

  /** _PL_cvt_i_char(): the conversion to a C char in [mn, mx]. */
  function CvtIChar(w: Cell, listText: Option<string>, mn: int, mx: int): (r: CvtResult)
    requires CharRange(mn, mx)
    ensures r.Converted? ==> mn <= r.v <= mx
    ensures GetInteger(w).Some? && mn <= w.v <= mx ==> r == Converted(w.v)
    ensures r.Failed? && IsInteger(w) ==> r.err == RepresentationError(if mn < 0 then "char" else "uchar")
    ensures r.Failed? && !IsInteger(w) ==> r.err == TypeError("integer")
    ensures r.Failed? <==>
              !(GetInteger(w).Some? && mn <= w.v <= mx)
              && !(WordText(w, listText).Some? && OneLatin1Char(WordText(w, listText).value))
  {
    match GetInteger(w)
    case Some(i) =>
      if i >= mn && i <= mx then Converted(i)
      else Failed(RepresentationError(if mn < 0 then "char" else "uchar"))
    case None =>
      match WordText(w, listText)
      case Some(t) =>
        if |t| == 1 && (t[0] as int) < 256 then Converted(CharAsSeen(t[0] as int, mn))
        else CharError(w, mn)
      case None => CharError(w, mn)
  }

  /** The error of _PL_cvt_i_char() once both readings failed. */
  function CharError(w: Cell, mn: int): (r: CvtResult)
    ensures r.Failed?
    ensures IsInteger(w) <==> r.err.RepresentationError?
  {
    if IsInteger(w) then Failed(RepresentationError(if mn < 0 then "char" else "uchar"))
    else Failed(TypeError("integer"))
  }

  /** PL_cvt_i_schar(): a value of a C signed char, or its error. */
  function CvtISchar(w: Cell, listText: Option<string>): (r: CvtResult)
    ensures r.Converted? ==> SCHAR_MIN <= r.v <= SCHAR_MAX
    ensures w.TaggedInt? && SCHAR_MIN <= w.v <= SCHAR_MAX ==> r == Converted(w.v)
  {
    CvtIChar(w, listText, SCHAR_MIN, SCHAR_MAX)
  }

  /** PL_cvt_i_uchar(): a value of a C unsigned char, or its error. */
  function CvtIUchar(w: Cell, listText: Option<string>): (r: CvtResult)
    ensures r.Converted? ==> 0 <= r.v <= UCHAR_MAX
    ensures w.TaggedInt? && 0 <= w.v <= UCHAR_MAX ==> r == Converted(w.v)
  {
    CvtIChar(w, listText, 0, UCHAR_MAX)
  }

  /** PL_cvt_i_char(): the signed or the unsigned variant, as the platform's char is signed or not. */
  function CvtIPlainChar(w: Cell, listText: Option<string>, charIsSigned: bool): (r: CvtResult)
    ensures r.Converted? && charIsSigned ==> SCHAR_MIN <= r.v <= SCHAR_MAX
    ensures r.Converted? && !charIsSigned ==> 0 <= r.v <= UCHAR_MAX
    ensures w.TaggedInt? && 0 <= w.v <= SCHAR_MAX ==> r == Converted(w.v)
  {
    if charIsSigned then CvtISchar(w, listText) else CvtIUchar(w, listText)
  }

  /** _PL_cvt_i_short(): the conversion to a C short in [mn, mx]; no text is accepted. */
  function CvtIShort(w: Cell, mn: int, mx: int): (r: CvtResult)
    requires ShortRange(mn, mx)
    ensures r.Converted? <==> w.TaggedInt? && mn <= w.v <= mx
    ensures r.Converted? ==> r.v == w.v
    ensures r.Failed? && IsInteger(w) ==> r.err == RepresentationError(if mn < 0 then "short" else "ushort")
    ensures r.Failed? && !IsInteger(w) ==> r.err == TypeError("integer")
  {
    match GetInteger(w)
    case Some(i) =>
      if i >= mn && i <= mx then Converted(i)
      else Failed(RepresentationError(if mn < 0 then "short" else "ushort"))
    case None =>
      if IsInteger(w) then Failed(RepresentationError(if mn < 0 then "short" else "ushort"))
      else Failed(TypeError("integer"))
  }

  /** Every value of the target type converts to itself, and only those integers do. */
  lemma CvtRangeExact(v: int)
    ensures CvtISchar(TaggedInt(v), None).Converted? <==> SCHAR_MIN <= v <= SCHAR_MAX
    ensures CvtIUchar(TaggedInt(v), None).Converted? <==> 0 <= v <= UCHAR_MAX
    ensures CvtIShort(TaggedInt(v), SHORT_MIN, SHORT_MAX).Converted? <==> SHORT_MIN <= v <= SHORT_MAX
    ensures CvtIShort(TaggedInt(v), 0, USHORT_MAX).Converted? <==> 0 <= v <= USHORT_MAX
    ensures SCHAR_MIN <= v <= SCHAR_MAX ==> CvtISchar(TaggedInt(v), None) == Converted(v)
    ensures 0 <= v <= UCHAR_MAX ==> CvtIUchar(TaggedInt(v), None) == Converted(v)
  {
  }

  /**
   * A one-character atom converts to its code: unchanged for unsigned char,
   * and for signed char the same byte read back as negative above 127.
   */
  lemma CvtCharAtom(code: nat)
    requires code < 256
    ensures CvtIUchar(CharAtom(code), None) == Converted(code)
    ensures CvtISchar(CharAtom(code), None) == Converted(if code < 128 then code else code - 256)
  {
  }

  /** The heads PL_put_list_nchars() writes convert back, through PL_cvt_i_uchar(), to the low bytes. */
  lemma CharWordsRead(chars: seq<int>)
    ensures forall k :: 0 <= k < |chars| ==> CvtIUchar(CharWords(chars)[k], None) == Converted(LowByte(chars[k]))
  {
    forall k | 0 <= k < |chars|
      ensures CvtIUchar(CharWords(chars)[k], None) == Converted(LowByte(chars[k]))
    {
      CvtCharAtom(LowByte(chars[k]));
    }
  }

  /** The text path is what tells the char variants from the short ones: 'a' is a char but not a short. */
  lemma CharAcceptsTextShortDoesNot()
    ensures CvtIUchar(CharAtom(97), None) == Converted(97)
    ensures CvtIShort(CharAtom(97), 0, USHORT_MAX) == Failed(TypeError("integer"))
  {
  }
}
