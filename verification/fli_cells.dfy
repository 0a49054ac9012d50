/*
 * Tagged cells of the Prolog stacks as seen by the foreign interface
 * (src/pl-fli.c).  One array of cells holds the global stack below lBase
 * and the local stack from lBase up.  This module holds what is pure about
 * cells: dereferencing, the reference-direction invariant that makes
 * dereferencing terminate, the typed accessors on a dereferenced word and
 * the type map.
 */
module FliCells {

  datatype Option<T> = None | Some(value: T)

  /**
   * Data kept off-tag (pl-fli.c reaches it through isIndirect()/get_int64()),
   * with its contents: a float as its 64-bit IEEE 754 pattern, a rational
   * as numerator and denominator.  Two indirects are equal exactly when
   * their contents are, as equalIndirect() compares them.
   */
  datatype IndirectKind = IInteger(v: int) | IRational(num: int, den: nat) | IFloat(bits: bv64) | IString(s: string)

  /**
   * One word.  `Atom(name, text)`: text atoms have `text`; `[]` and blobs do
   * not.  `Compound(addr)` points at the functor cell of a structure; its
   * arguments follow that cell.  `TermTFree` is the tombstone
   * ATOM_term_t_free that PL_free_term_ref() leaves in a freed handle.
   */
  datatype Cell =
    | Var
    | AttVar
    | Ref(addr: nat)
    | Atom(name: string, text: bool)
    | TaggedInt(v: int)
    | Indirect(kind: IndirectKind)
    | Compound(addr: nat)
    | Functor(fname: string, arity: nat)
    | TermTFree

  const NIL: Cell := Atom("[]", false)
  const ATOM_TRUE: Cell := Atom("true", true)
  const ATOM_FALSE: Cell := Atom("false", true)
  const ATOM_ON: Cell := Atom("on", true)
  const ATOM_OFF: Cell := Atom("off", true)
  const FUNCTOR_DOT2: Cell := Functor("[|]", 2)

  /** The one-character text atom for a character code below 256 (codeToAtom()). */
  function CharAtom(code: nat): (a: Cell)
    requires code < 256
    ensures a.Atom? && a.text && |a.name| == 1 && a.name[0] as int == code
  {
    Atom([code as char], true)
  }

  /** `c & 0xff`: the low byte of a C char, whatever its signedness. */
  function LowByte(c: int): (b: nat)
    ensures b < 256
  {
    c % 256
  }

  /** The heads PL_put_list_ncodes() writes: consInt(c & 0xff) per char. */
  function CodeWords(chars: seq<int>): (ws: seq<Cell>)
    ensures |ws| == |chars|
    ensures forall k :: 0 <= k < |chars| ==> ws[k] == TaggedInt(LowByte(chars[k]))
  {
    seq(|chars|, k requires 0 <= k < |chars| => TaggedInt(LowByte(chars[k])))
  }

  /** The heads PL_put_list_nchars() writes: codeToAtom(c & 0xff) per char. */
  function CharWords(chars: seq<int>): (ws: seq<Cell>)
    ensures |ws| == |chars|
    ensures forall k :: 0 <= k < |chars| ==> ws[k] == CharAtom(LowByte(chars[k]))
  {
    seq(|chars|, k requires 0 <= k < |chars| => CharAtom(LowByte(chars[k])))
  }

  /** dict_functor(len): the functor cell of a dict with len key-value pairs. */
  function DictFunctor(len: nat): (f: Cell)
    ensures f.Functor? && f.fname == "dict" && f.arity == 2 * len + 1
  {
    Functor("dict", 2 * len + 1)
  }

  /** The dict functor's arity is odd (the tag plus the pairs) and gives back the number of pairs. */
  lemma DictFunctorPairs(len1: nat, len2: nat)
    ensures DictFunctor(len1).arity % 2 == 1
    ensures (DictFunctor(len1).arity - 1) / 2 == len1
    ensures DictFunctor(len1) == DictFunctor(len2) <==> len1 == len2
  {
  }

  /** canBind(): an unbound variable, plain or attributed. */
  predicate CanBind(c: Cell) { c.Var? || c.AttVar? }

  /** What a reference may point at when it points upward: bound, never a Ref or plain Var. */
  predicate UpwardTargetOk(c: Cell) { !c.Ref? && !c.Var? }

  /*****************************************************************
   * Dereferencing
   *****************************************************************/

  /**
   * deRef(): follow references.  A reference to a lower address is followed
   * further; one to a higher address ends there (by the invariant below its
   * target is never a reference), so the recursion runs on the address.
   */
  function Deref(m: seq<Cell>, p: nat): (q: nat)
    requires p < |m|
    ensures q < |m|
    decreases p
  {
    if m[p].Ref? && m[p].addr < p then Deref(m, m[p].addr)
    else if m[p].Ref? && m[p].addr < |m| then m[p].addr
    else p
  }

  /**
   * The reference-direction invariant.  Every reference points into the
   * global stack (below lBase); one stored on the local stack points below
   * `loc`; and it points downward unless its target is below `up` and bound
   * (an attributed variable or a value).  In a stable state up == loc == gTop.
   */
  predicate RefOkAt(m: seq<Cell>, up: nat, loc: nat, lBase: nat, p: nat)
    requires p < |m| && m[p].Ref?
  {
    var a := m[p].addr;
    a < lBase && a < |m| && (p >= lBase ==> a < loc)
    && (a < p || (a < up && UpwardTargetOk(m[a])))
  }

  predicate RefsOk(m: seq<Cell>, up: nat, loc: nat, lBase: nat) {
    forall p {:trigger RefOkAt(m, up, loc, lBase, p)} :: 0 <= p < |m| && m[p].Ref? ==> RefOkAt(m, up, loc, lBase, p)
  }

  /** Attributed variables live on the global stack only. */
  predicate LocalNoAttVar(m: seq<Cell>, lBase: nat) {
    forall p {:trigger m[p].AttVar?} :: lBase <= p < |m| ==> !m[p].AttVar?
  }

  /** The conditions under which storing v at p keeps both invariants. */
  predicate WriteOk(m: seq<Cell>, up: nat, loc: nat, lBase: nat, p: nat, v: Cell)
    requires p < |m|
  {
    (v.Ref? ==> var a := v.addr;
                a < lBase && a < |m| && a != p && (p >= lBase ==> a < loc)
                && (a < p || (a < up && UpwardTargetOk(m[a]))))
    && (m[p].Var? || p >= up || UpwardTargetOk(v))
    && (p >= lBase ==> !v.AttVar?)
  }

  lemma WritePreservesRefs(m: seq<Cell>, up: nat, loc: nat, lBase: nat, p: nat, v: Cell)
    requires p < |m| && RefsOk(m, up, loc, lBase) && LocalNoAttVar(m, lBase)
    requires WriteOk(m, up, loc, lBase, p, v)
    ensures RefsOk(m[p := v], up, loc, lBase) && LocalNoAttVar(m[p := v], lBase)
  {
    var m' := m[p := v];
    forall q | 0 <= q < |m'| && m'[q].Ref?
      ensures RefOkAt(m', up, loc, lBase, q)
    {
      if q != p {
        assert RefOkAt(m, up, loc, lBase, q);
        var a := m[q].addr;
        if a == p && a >= q {
          // q pointed upward at p, so m[p] was bound: neither Var nor p >= up holds
          assert UpwardTargetOk(m[p]);
        }
      }
    }
  }

  /** Raising either bound keeps the invariant. */
  lemma RefsOkWeaken(m: seq<Cell>, up: nat, loc: nat, up': nat, loc': nat, lBase: nat)
    requires RefsOk(m, up, loc, lBase) && up <= up' && loc <= loc'
    ensures RefsOk(m, up', loc', lBase)
  {
    forall q | 0 <= q < |m| && m[q].Ref? ensures RefOkAt(m, up', loc', lBase, q) {
      assert RefOkAt(m, up, loc, lBase, q);
    }
  }

  /**
   * Under the invariant, dereferencing ends at a cell that is not a
   * reference; starting from a reference it ends on the global stack, below
   * `loc` when the start is a live cell (global below loc, or local).
   */
  lemma {:induction false} DerefFacts(m: seq<Cell>, up: nat, loc: nat, lBase: nat, p: nat)
    requires p < |m| && RefsOk(m, up, loc, lBase) && up <= loc
    ensures Deref(m, p) < |m| && !m[Deref(m, p)].Ref?
    ensures !m[p].Ref? ==> Deref(m, p) == p
    ensures m[p].Ref? ==> Deref(m, p) < lBase
    ensures m[p].Ref? && (p < loc || p >= lBase) ==> Deref(m, p) < loc
    decreases p
  {
    if m[p].Ref? {
      assert RefOkAt(m, up, loc, lBase, p);
      var a := m[p].addr;
      if a < p {
        DerefFacts(m, up, loc, lBase, a);
      }
    }
  }

  /**
   * Dereferencing from a global cell never leaves the global stack, so
   * stores into the local stack do not change where it ends.
   */
  lemma {:induction false} DerefGlobalFrame(m: seq<Cell>, m': seq<Cell>, up: nat, loc: nat, lBase: nat, p: nat)
    requires RefsOk(m, up, loc, lBase) && |m'| == |m| && p < lBase && p < |m|
    requires forall q :: 0 <= q < lBase && q < |m| ==> m'[q] == m[q]
    ensures Deref(m', p) == Deref(m, p) && Deref(m, p) < lBase
    decreases p
  {
    if m[p].Ref? {
      assert RefOkAt(m, up, loc, lBase, p);
      if m[p].addr < p {
        DerefGlobalFrame(m, m', up, loc, lBase, m[p].addr);
      }
    }
  }

  /**
   * References only lead into the global stack, so a store at or above
   * lBase does not change where dereferencing from a cell below it ends.
   */
  lemma {:induction false} DerefBelow(m: seq<Cell>, m': seq<Cell>, up: nat, loc: nat, lBase: nat, t: nat, p: nat)
    requires RefsOk(m, up, loc, lBase) && lBase <= t && |m'| == |m| && p < t && p < |m|
    requires forall q :: 0 <= q < t && q < |m| ==> m'[q] == m[q]
    ensures Deref(m', p) == Deref(m, p)
    decreases p
  {
    if m[p].Ref? {
      assert RefOkAt(m, up, loc, lBase, p);
      if m[p].addr < p {
        DerefBelow(m, m', up, loc, lBase, t, m[p].addr);
      }
    }
  }

  /*****************************************************************
   * linkVal*(): the word that stands for the value at a cell
   *****************************************************************/

  /**
   * linkValI(): the dereferenced value, or a reference to it when it is an
   * unbound variable (a variable cannot be copied, only pointed at).
   */
  function LinkValI(m: seq<Cell>, p: nat): Cell
    requires p < |m|
  {
    var q := Deref(m, p);
    if CanBind(m[q]) then Ref(q) else m[q]
  }

  /**
   * linkValNoG(): as linkValI(), but an unbound variable on the local stack
   * is returned as a plain (unlinked) variable instead of a reference.
   */
  function LinkValNoG(m: seq<Cell>, lBase: nat, p: nat): (w: Cell)
    requires p < |m|
  {
    var q := Deref(m, p);
    if CanBind(m[q]) && q < lBase then Ref(q) else m[q]
  }

  lemma LinkValNoGFacts(m: seq<Cell>, up: nat, loc: nat, lBase: nat, p: nat)
    requires p < |m| && RefsOk(m, up, loc, lBase) && up <= loc && LocalNoAttVar(m, lBase)
    requires p < loc || p >= lBase
    ensures var w := LinkValNoG(m, lBase, p);
            !w.AttVar?
            && (w.Ref? ==> w.addr < lBase && w.addr < loc && w.addr < |m| && CanBind(m[w.addr]))
            && (!w.Ref? ==> w == m[Deref(m, p)] && (w.Var? ==> Deref(m, p) >= lBase))
  {
    DerefFacts(m, up, loc, lBase, p);
    var q := Deref(m, p);
    if q >= lBase {
      assert !m[q].AttVar?;
      assert !m[p].Ref?;
    }
  }

  /*****************************************************************
   * Structures
   *****************************************************************/

  /** A compound cell whose functor cell and arguments are inside memory. */
  predicate StructOk(m: seq<Cell>, c: Cell) {
    c.Compound? && c.addr < |m| && m[c.addr].Functor? && c.addr + m[c.addr].arity < |m|
  }

  /** hasFunctor(w, f). */
  predicate HasFunctor(m: seq<Cell>, w: Cell, name: string, arity: nat) {
    w.Compound? && w.addr < |m| && m[w.addr] == Functor(name, arity)
  }

  /**
   * The cell of argument `index` of the term w, counting from 1, as
   * PL_get_arg_sz() and PL_unify_arg_sz() find it: only a compound has
   * arguments, and only 0 < index <= arity names one.
   */
  function ArgCell(m: seq<Cell>, w: Cell, index: nat): (r: Option<nat>)
    ensures r.Some? <==> w.Compound? && w.addr < |m| && m[w.addr].Functor? && 1 <= index <= m[w.addr].arity
    ensures r.Some? ==> w.addr < r.value <= w.addr + m[w.addr].arity
  {
    if w.Compound? && w.addr < |m| && m[w.addr].Functor? && index > 0 && index - 1 < m[w.addr].arity
    then Some(w.addr + index)
    else None
  }

  /** The heads PL_put_list_ncodes() writes read back, through PL_get_integer(), as the low bytes. */
  lemma CodeWordsRead(chars: seq<int>)
    ensures forall k :: 0 <= k < |chars| ==> GetInteger(CodeWords(chars)[k]) == Some(LowByte(chars[k]))
  {
  }

  /*****************************************************************
   * PL_term_type(): the type map on a dereferenced word
   *****************************************************************/

  datatype TermType = PlVariable | PlAtom | PlInteger | PlRational | PlFloat | PlString
                    | PlTerm | PlNil | PlBlob | PlListPair | PlDict | PlNoType

  /** type_map[tag(w)]: the tag-level type, before PL_term_type() refines it. */
  function TypeMap(w: Cell): (t: TermType)
    ensures t == PlVariable <==> CanBind(w)
    ensures t == PlNoType <==> w.Ref? || w.Functor?
    ensures t != PlNil && t != PlBlob && t != PlListPair && t != PlDict
  {
    match w
    case Var => PlVariable
    case AttVar => PlVariable
    case Indirect(IFloat(_)) => PlFloat
    case TaggedInt(_) => PlInteger
    case Indirect(IInteger(_)) => PlInteger
    case Indirect(IRational(_, _)) => PlInteger
    case Indirect(IString(_)) => PlString
    case Atom(_, _) => PlAtom
    case TermTFree => PlAtom
    case Compound(_) => PlTerm
    case Ref(_) => PlNoType
    case Functor(_, _) => PlNoType
  }

  /** PL_term_type() on the dereferenced word of a handle. */
  function TermTypeOf(m: seq<Cell>, w: Cell): (t: TermType)
    requires w.Compound? ==> StructOk(m, w)
    requires w != TermTFree
    ensures t == PlNil <==> w == NIL
    ensures t == PlListPair <==> HasFunctor(m, w, "[|]", 2)
    ensures t == PlDict <==> (w.Compound? && m[w.addr].fname == "dict" && m[w.addr] != FUNCTOR_DOT2)
    ensures t == PlVariable <==> CanBind(w)
    ensures t == PlBlob <==> (w.Atom? && !w.text && w != NIL)
    ensures TypeMap(w) != PlAtom && TypeMap(w) != PlInteger && TypeMap(w) != PlTerm ==> t == TypeMap(w)
  {
    match TypeMap(w)
    case PlAtom =>
      if w.Atom? && w.text then PlAtom
      else if w == NIL then PlNil
      else PlBlob
    case PlInteger =>
      if w.TaggedInt? || (w.Indirect? && w.kind.IInteger?) then PlInteger else PlRational
    case PlTerm =>
      var f := m[w.addr];
      if f == FUNCTOR_DOT2 then PlListPair
      else if f.fname == "dict" then PlDict
      else PlTerm
    case _ => TypeMap(w)
  }

  /** Every term value gets one of the documented types: never the -1 of type_map. */
  lemma TermTypeIsDefined(m: seq<Cell>, w: Cell)
    requires w.Compound? ==> StructOk(m, w)
    requires !w.Ref? && !w.Functor? && w != TermTFree
    ensures TermTypeOf(m, w) != PlNoType
  {
  }

  /*****************************************************************
   * PL_skip_list(): the four-way tail classification
   *****************************************************************/

  datatype ListShape = PlList | PlPartialList | PlCyclicTerm | PlNotAList

  /**
   * The result of PL_skip_list() from the cell where skip_list() stopped:
   * skip_list() stops at the end of a proper list, at an unbound tail, at a
   * non-list tail, or (for a cyclic list) back on a list cell.
   */
  function SkipListShape(m: seq<Cell>, tail: Cell): (r: ListShape)
    ensures r == PlList <==> tail == NIL
    ensures r == PlPartialList <==> tail.Var?
    ensures r == PlCyclicTerm <==> tail != NIL && !tail.Var? && HasFunctor(m, tail, "[|]", 2)
  {
    if tail == NIL then PlList
    else if tail.Var? then PlPartialList
    else if HasFunctor(m, tail, "[|]", 2) then PlCyclicTerm
    else PlNotAList
  }

  /*****************************************************************
   * Integers: tagged representation and the typed getters
   *****************************************************************/

  // A 64-bit build: intptr_t is 64 bits and 7 tag bits leave 57-bit tagged integers.
  const INTPTR_BITS: nat := 64
  const TAG_BITS: nat := 7
  const TAGGED_MAX: int := 0xff_ffff_ffff_ffff           // 2^56 - 1
  const TAGGED_MIN: int := -0x100_0000_0000_0000         // -2^56
  const INT_MIN: int := -0x8000_0000
  const INT_MAX: int := 0x7fff_ffff
  const UINT_MAX: int := 0xffff_ffff
  const INT64_MIN: int := -0x8000_0000_0000_0000
  const INT64_MAX: int := 0x7fff_ffff_ffff_ffff
  // LP64: long is 64 bits.
  const LONG_MIN: int := INT64_MIN
  const LONG_MAX: int := INT64_MAX

  /**
   * valInt(consInt(v)): consInt() shifts the tag bits out at the top and
   * valInt() shifts back with sign extension, so only the low 57 bits of v
   * survive, read as a signed number.
   */
  function TaggedRoundTrip(v: int): (r: int)
    ensures TAGGED_MIN <= r <= TAGGED_MAX
  {
    ((v - TAGGED_MIN) % (TAGGED_MAX - TAGGED_MIN + 1)) + TAGGED_MIN
  }

  /** _PL_cons_small_int(): the tagged word for v, or nothing (0) when v does not fit. */
  function ConsSmallInt(v: int): (r: Option<Cell>)
    requires INT64_MIN <= v <= INT64_MAX
    ensures r.Some? ==> r.value == TaggedInt(v) && TAGGED_MIN <= v <= TAGGED_MAX
  {
    var w := TaggedRoundTrip(v);
    if w == v then Some(TaggedInt(w)) else None
  }

  lemma ConsSmallIntExact(v: int)
    requires INT64_MIN <= v <= INT64_MAX
    ensures ConsSmallInt(v).Some? <==> TAGGED_MIN <= v <= TAGGED_MAX
    ensures ConsSmallInt(v).Some? ==> ConsSmallInt(v).value == TaggedInt(v)
  {
    if TAGGED_MIN <= v <= TAGGED_MAX {
      assert 0 <= v - TAGGED_MIN < TAGGED_MAX - TAGGED_MIN + 1;
    }
  }

  /** PL_get_integer(): tagged integers that fit a C int. */
  function GetInteger(w: Cell): (r: Option<int>)
    ensures r.Some? <==> w.TaggedInt? && INT_MIN <= w.v <= INT_MAX
    ensures r.Some? ==> r.value == w.v
  {
    if w.TaggedInt? then
      if w.v > INT_MAX || w.v < INT_MIN then None else Some(w.v)
    else None
  }

  /** PL_get_uint(): tagged integers that fit an unsigned int. */
  function GetUint(w: Cell): (r: Option<int>)
    ensures r.Some? <==> w.TaggedInt? && 0 <= w.v <= UINT_MAX
    ensures r.Some? ==> r.value == w.v
  {
    if w.TaggedInt? then
      if w.v < 0 || w.v > UINT_MAX then None else Some(w.v)
    else None
  }

  /** get_int64(): an indirect integer that fits 64 bits (defined outside pl-fli.c). */
  function IndirectInt64(w: Cell): Option<int> {
    if w.Indirect? && w.kind.IInteger? && INT64_MIN <= w.kind.v <= INT64_MAX then Some(w.kind.v) else None
  }

  /** PL_get_int64(): any tagged integer, or an indirect one that fits. */
  function GetInt64(w: Cell): (r: Option<int>)
    requires w.TaggedInt? ==> TAGGED_MIN <= w.v <= TAGGED_MAX
    ensures r.Some? ==> INT64_MIN <= r.value <= INT64_MAX
    ensures r.Some? <==> w.TaggedInt? || IndirectInt64(w).Some?
  {
    if w.TaggedInt? then Some(w.v) else IndirectInt64(w)
  }

  /** PL_get_long(): tagged within long, else get_int64() within long. */
  function GetLong(w: Cell): (r: Option<int>)
    ensures r.Some? ==> LONG_MIN <= r.value <= LONG_MAX
  {
    if w.TaggedInt? && LONG_MIN <= w.v <= LONG_MAX then Some(w.v)
    else if w.TaggedInt? then None
    else match IndirectInt64(w)
      case Some(i) => if i <= LONG_MAX && i >= LONG_MIN then Some(i) else None
      case None => None
  }

  /** PL_get_uintptr(): PL_get_int64() and non-negative (no further check on 64 bits). */
  function GetUintptr(w: Cell): (r: Option<int>)
    requires w.TaggedInt? ==> TAGGED_MIN <= w.v <= TAGGED_MAX
    ensures r.Some? ==> 0 <= r.value <= INT64_MAX
  {
    match GetInt64(w)
    case Some(v) => if v < 0 then None else Some(v)
    case None => None
  }

  /** The getters agree: an int is a long, and on an LP64 build long and int64 coincide. */
  lemma GettersAgree(w: Cell)
    requires w.TaggedInt? ==> TAGGED_MIN <= w.v <= TAGGED_MAX
    ensures GetInteger(w).Some? ==> GetLong(w) == GetInteger(w)
    ensures GetUint(w).Some? ==> GetUintptr(w) == GetUint(w)
    ensures GetLong(w) == GetInt64(w)
    ensures GetInteger(w).Some? && GetInteger(w).value >= 0 ==> GetUint(w) == GetInteger(w)
  {
  }

  /** A tagged integer outside the C int range is refused by PL_get_integer() but not by PL_get_long(). */
  lemma GetIntegerNarrowerThanLong()
    ensures GetInteger(TaggedInt(INT_MAX + 1)).None?
    ensures GetLong(TaggedInt(INT_MAX + 1)) == Some(INT_MAX + 1)
  {
  }

  /*****************************************************************
   * Booleans
   *****************************************************************/

  /** atom_to_bool(): 1, 0, or -1 for an atom that is not a boolean. */
  function AtomToBool(a: Cell): (r: int)
    ensures r == 1 <==> a == ATOM_TRUE || a == ATOM_ON
    ensures r == 0 <==> a == ATOM_FALSE || a == ATOM_OFF
    ensures r == -1 || r == 0 || r == 1
  {
    if a == ATOM_TRUE || a == ATOM_ON then 1
    else if a == ATOM_FALSE || a == ATOM_OFF then 0
    else -1
  }

  /** isInteger(): a tagged or indirect (big) integer. */
  predicate IsInteger(w: Cell) { w.TaggedInt? || (w.Indirect? && w.kind.IInteger?) }

  /** PL_get_bool() on the dereferenced word. */
  function GetBool(w: Cell): (r: Option<bool>)
    ensures r == Some(true) <==> w in {ATOM_TRUE, ATOM_ON, TaggedInt(1)}
    ensures r == Some(false) <==> w in {ATOM_FALSE, ATOM_OFF, TaggedInt(0)}
  {
    if w.Atom? then
      var bv := AtomToBool(w);
      if bv >= 0 then Some(bv == 1) else None
    else if IsInteger(w) then
      if w == TaggedInt(0) then Some(false)
      else if w == TaggedInt(1) then Some(true)
      else None
    else None
  }

  /** The atom PL_unify_bool() binds for a truth value. */
  function BoolAtom(val: bool): Cell { if val then ATOM_TRUE else ATOM_FALSE }

  /** PL_unify_bool() against a bound word: it accepts the aliases on/off too. */
  function BoolMatches(w: Cell, val: bool): (r: bool)
    ensures r <==> w.Atom? && GetBool(w) == Some(val)
  {
    if val then w == ATOM_TRUE || w == ATOM_ON else w == ATOM_FALSE || w == ATOM_OFF
  }

  /** What PL_unify_bool() binds, PL_get_bool() reads back. */
  lemma UnifyBoolGetBoolRoundTrip(val: bool)
    ensures GetBool(BoolAtom(val)) == Some(val)
    ensures BoolMatches(BoolAtom(val), val) && !BoolMatches(BoolAtom(val), !val)
  {
  }
}
