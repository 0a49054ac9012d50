/*
 * The exception state of the foreign interface (src/pl-fli.c:4599-4739):
 * classify_exception_p(), the fallback ladder of copy_exception(),
 * has_emergency_space() and PL_raise_exception().  Exception terms are
 * the values their handles denote; whether duplicate_term() and the
 * smaller copies succeed is given to each operation.
 */
module FliExceptions {

  /** An exception term as a value. */
  datatype Term = TVar | TAtom(name: string) | TInt(v: int) | TCompound(name: string, args: seq<Term>)

  /** except_class: the priority of a pending exception. */
  datatype ExceptClass =
    | ExceptNone | ExceptOther | ExceptError | ExceptTimeout | ExceptResource
    | ExceptUnwind | ExceptAbort | ExceptHalt | ExceptThreadExit

  /**
   * The numeric order of except_class, which is declared outside this code;
   * only `>=` is used on it.  Errors rank above other terms, time-outs and
   * resource errors above errors, and the unwind family above those.
   */
  function Rank(c: ExceptClass): (r: nat)
    ensures r <= 8
    ensures c == ExceptNone <==> r == 0
  {
    match c
    case ExceptNone => 0
    case ExceptOther => 1
    case ExceptError => 2
    case ExceptTimeout => 3
    case ExceptResource => 4
    case ExceptUnwind => 5
    case ExceptAbort => 6
    case ExceptHalt => 7
    case ExceptThreadExit => 8
  }

  predicate IsFunctor(t: Term, name: string, arity: nat) {
    t.TCompound? && t.name == name && |t.args| == arity
  }

  /** The unwind(_) part of classify_exception_p(), on the argument of unwind/1. */
  function ClassifyUnwind(a: Term): (c: ExceptClass)
    ensures c in {ExceptUnwind, ExceptAbort, ExceptHalt, ExceptThreadExit}
    ensures c == ExceptAbort <==> a == TAtom("abort")
    ensures c == ExceptHalt <==> IsFunctor(a, "halt", 1)
    ensures c == ExceptThreadExit <==> IsFunctor(a, "thread_exit", 1)
  {
    if a.TAtom? then
      if a.name == "abort" then ExceptAbort else ExceptUnwind
    else if IsFunctor(a, "halt", 1) then ExceptHalt
    else if IsFunctor(a, "thread_exit", 1) then ExceptThreadExit
    else ExceptUnwind
  }

  /**
   * classify_exception_p() as written: inside error/2 only the atom
   * resource_error makes a resource exception.
   */
  function ClassifyAsWritten(t: Term): (c: ExceptClass)
    ensures c == ExceptNone <==> t.TVar?
    ensures c == ExceptError ==> IsFunctor(t, "error", 2) && t.args[0] != TAtom("resource_error")
    ensures IsFunctor(t, "error", 2) ==> c in {ExceptError, ExceptResource}
  {
    if t.TVar? then ExceptNone
    else if t.TAtom? then
      if t.name == "time_limit_exceeded" then ExceptTimeout else ExceptOther
    else if IsFunctor(t, "error", 2) then
      if t.args[0] == TAtom("resource_error") then ExceptResource else ExceptError
    else if IsFunctor(t, "time_limit_exceeded", 1) then ExceptTimeout
    else if IsFunctor(t, "unwind", 1) then ClassifyUnwind(t.args[0])
    else ExceptOther
  }

  /** The formal term of a resource error: the atom, or resource_error(What) as the system raises it. */
  predicate IsResourceFormal(f: Term) {
    f == TAtom("resource_error") || IsFunctor(f, "resource_error", 1)
  }

  /** classify_exception_p() with error(resource_error(_), _) counted as a resource exception too. */
  function Classify(t: Term): (c: ExceptClass)
    ensures c == ExceptNone <==> t.TVar?
    ensures c == ExceptResource <==> IsFunctor(t, "error", 2) && IsResourceFormal(t.args[0])
    ensures c == ExceptError <==> IsFunctor(t, "error", 2) && !IsResourceFormal(t.args[0])
    ensures c == ExceptTimeout <==> t == TAtom("time_limit_exceeded") || IsFunctor(t, "time_limit_exceeded", 1)
    ensures c in {ExceptUnwind, ExceptAbort, ExceptHalt, ExceptThreadExit} <==> IsFunctor(t, "unwind", 1)
    ensures c == ExceptOther <==>
              !t.TVar? && t != TAtom("time_limit_exceeded") && !IsFunctor(t, "error", 2)
              && !IsFunctor(t, "time_limit_exceeded", 1) && !IsFunctor(t, "unwind", 1)
  {
    if IsFunctor(t, "error", 2) then
      if IsResourceFormal(t.args[0]) then ExceptResource else ExceptError
    else ClassifyAsWritten(t)
  }

  /** The two agree everywhere except on error(resource_error(_), _). */
  lemma ClassifyAgrees(t: Term)
    requires !(IsFunctor(t, "error", 2) && IsFunctor(t.args[0], "resource_error", 1))
    ensures Classify(t) == ClassifyAsWritten(t)
  {
  }

  /** The term copy_exception() builds in emergency space: error(resource_error(stack), global). */
  const STACK_OVERFLOW: Term :=
    TCompound("error", [TCompound("resource_error", [TAtom("stack")]), TAtom("global")])

  /** The last resort of copy_exception(). */
  const ABORT: Term := TAtom("abort")

  /**
   * As written, the resource error copy_exception() itself synthesizes is
   * classified as a plain error, so any later error/2 replaces it; with the
   * correction it keeps its resource priority.
   */
  lemma StackOverflowMisclassified()
    ensures ClassifyAsWritten(STACK_OVERFLOW) == ExceptError
    ensures Classify(STACK_OVERFLOW) == ExceptResource
    ensures var later := TCompound("error", [TAtom("type_error"), TVar]);
            Rank(ClassifyAsWritten(later)) >= Rank(ClassifyAsWritten(STACK_OVERFLOW))
            && Rank(Classify(later)) < Rank(Classify(STACK_OVERFLOW))
  {
    assert IsFunctor(STACK_OVERFLOW.args[0], "resource_error", 1);
  }

  /*****************************************************************
   * has_emergency_space()
   *****************************************************************/

  const WORD_BYTES: nat := 8

  /** A stack as has_emergency_space() sees it, in bytes: its top, its limit and the spare room behind the limit. */
  class Stack {
    var top: int
    var max: int
    var spare: int

    constructor (top0: int, max0: int, spare0: int)
      ensures top == top0 && max == max0 && spare == spare0
    {
      top := top0;
      max := max0;
      spare := spare0;
    }

    /**
     * has_emergency_space(): room for `needed` bytes below the limit,
     * moving the lacking bytes from the spare into the stack when fewer
     * than the spare are lacking.
     */
    method HasEmergencySpace(needed: nat) returns (ok: bool)
      modifies this
      ensures top == old(top) && max + spare == old(max + spare)
      ensures var lacking := old(top) + needed - old(max);
              (ok <==> lacking <= 0 || lacking < old(spare))
              && (lacking <= 0 || !ok ==> max == old(max) && spare == old(spare))
              && (ok && lacking > 0 ==> max == top + needed && spare > 0)
      ensures ok ==> top + needed <= max
    {
      var lacking := top + needed - max;
      if lacking <= 0 {
        return true;
      }
      if lacking < spare {
        max := max + lacking;
        spare := spare - lacking;
        return true;
      }
      return false;
    }
  }

  /*****************************************************************
   * copy_exception() and PL_raise_exception()
   *****************************************************************/

  /** What the copy steps of copy_exception() manage, decided outside this code. */
  datatype CopyOutcomes = CopyOutcomes(
    frameOpened: bool,    // PL_open_foreign_frame()
    duplicated: bool,     // duplicate_term(ex, bin)
    formalCopied: bool)   // the handles, PL_get_arg(), duplicate_term() of Formal and PL_cons_functor_v()

  /**
   * The ladder of copy_exception(), given whether the emergency space was
   * there: the whole term; for error/2 the term without its context; for
   * anything else the stack-overflow error; failing those, abort.
   */
  function CopyLadder(ex: Term, o: CopyOutcomes, emergency: bool): (r: Term)
    ensures r == ex || r == STACK_OVERFLOW || r == ABORT || (IsFunctor(r, "error", 2) && IsFunctor(ex, "error", 2))
  {
    if !o.frameOpened then ABORT
    else if o.duplicated then ex
    else if IsFunctor(ex, "error", 2) then
      if o.formalCopied then TCompound("error", [ex.args[0], TVar]) else ABORT
    else if emergency then STACK_OVERFLOW
    else ABORT
  }

  /**
   * Each rung of the ladder: the result is the term, its context-free
   * form, the stack-overflow error or abort, and which one it is follows
   * the order of the attempts.  Only the exact copy keeps a term's
   * context; the stack-overflow error replaces only terms other than
   * error/2, and abort is reached only when the earlier attempts fail.
   */
  lemma CopyLadderRungs(ex: Term, o: CopyOutcomes, emergency: bool)
    ensures var r := CopyLadder(ex, o, emergency);
            (r == ex <== o.frameOpened && o.duplicated)
            && (r == ex || (IsFunctor(ex, "error", 2) && r == TCompound("error", [ex.args[0], TVar]))
                || r == STACK_OVERFLOW || r == ABORT)
            && (r == STACK_OVERFLOW && r != ex ==> !IsFunctor(ex, "error", 2) && emergency)
            && (r == ABORT && r != ex ==>
                  !o.frameOpened || (!o.duplicated && (if IsFunctor(ex, "error", 2) then !o.formalCopied else !emergency)))
            && (o.frameOpened && !o.duplicated && IsFunctor(ex, "error", 2) && o.formalCopied ==>
                  Classify(r) == Classify(ex))
  {
  }

  /** The singleton exception slot of an engine and its flags. */
  class ExceptionState {
    var bin: Term            // exception_bin: TVar when empty
    var pending: bool        // exception_term == exception_bin
    var processing: bool     // LD->exception.processing
    var spareEnabled: bool   // enableSpareStacks() was called
    var frozen: bool         // freezeGlobal() was called
    const global: Stack

    constructor (g: Stack)
      ensures bin == TVar && !pending && !processing && !spareEnabled && !frozen && global == g
    {
      bin := TVar;
      pending := false;
      processing := false;
      spareEnabled := false;
      frozen := false;
      global := g;
    }

    /**
     * copy_exception(ex, bin): always succeeds; bin gets the rung of the
     * ladder reached.  A failed full copy clears the pending exception
     * (PL_clear_exception(); what resumeAfterException() does beyond that
     * is not part of this model) and marks the engine as processing.  The
     * emergency term takes five words of the global stack.
     */
    method CopyException(ex: Term, o: CopyOutcomes)
      modifies this, global
      ensures var emergency := o.frameOpened && !o.duplicated && !IsFunctor(ex, "error", 2)
                               && (old(global.top) + 5 * WORD_BYTES - old(global.max) <= 0
                                   || old(global.top) + 5 * WORD_BYTES - old(global.max) < old(global.spare));
              bin == CopyLadder(ex, o, emergency)
              && (bin == STACK_OVERFLOW && !o.duplicated ==> global.top == old(global.top) + 5 * WORD_BYTES)
      ensures global.max + global.spare == old(global.max + global.spare)
      ensures global.top == old(global.top) || global.top == old(global.top) + 5 * WORD_BYTES
      ensures global.top <= global.max || global.top == old(global.top)
      ensures o.frameOpened && !o.duplicated ==> !pending && processing
      ensures !(o.frameOpened && !o.duplicated) ==> pending == old(pending) && processing == old(processing)
      ensures spareEnabled == old(spareEnabled) && frozen == old(frozen)
    {
      if o.frameOpened {
        if o.duplicated {
          bin := ex;
          return;
        }
        pending := false;             // PL_clear_exception()
        processing := true;
        if IsFunctor(ex, "error", 2) {
          if o.formalCopied {
            bin := TCompound("error", [ex.args[0], TVar]);
            return;
          }
        } else {
          var room := global.HasEmergencySpace(5 * WORD_BYTES);
          if room {
            global.top := global.top + 5 * WORD_BYTES;
            bin := STACK_OVERFLOW;
            return;
          }
        }
      }
      bin := ABORT;
    }

    /**
     * PL_raise_exception(): unless the handle is exception_bin itself, the
     * new exception replaces the pending one when its class is not lower,
     * passing through copy_exception(); a resource exception enables the
     * spare stacks and a copied compound freezes the global stack.  The
     * exception is pending afterwards and the result is false.  Raising a
     * variable is a fatal error, so the term is bound.
     */
    method RaiseException(ex: Term, isBin: bool, o: CopyOutcomes) returns (r: bool)
      requires !ex.TVar?
      requires isBin ==> ex == bin
      modifies this, global
      ensures !r && pending && processing
      ensures var replace := !isBin && Rank(Classify(ex)) >= Rank(Classify(old(bin)));
              (!replace ==> bin == old(bin) && spareEnabled == old(spareEnabled) && frozen == old(frozen)
                            && global.top == old(global.top) && global.max == old(global.max))
              && (replace ==> spareEnabled == (old(spareEnabled) || Classify(ex) == ExceptResource)
                              && frozen == (old(frozen) || !bin.TAtom?)
                              && (bin == ex <== o.frameOpened && o.duplicated)
                              && (bin == ex || (IsFunctor(ex, "error", 2) && bin == TCompound("error", [ex.args[0], TVar]))
                                  || bin == STACK_OVERFLOW || bin == ABORT))
    {
      processing := true;
      if !isBin {
        var co := Classify(bin);
        var cn := Classify(ex);
        if Rank(cn) >= Rank(co) {
          if cn == ExceptResource {
            spareEnabled := true;
          }
          bin := TVar;
          ghost var emergency := o.frameOpened && !o.duplicated && !IsFunctor(ex, "error", 2)
                                 && (global.top + 5 * WORD_BYTES - global.max <= 0
                                     || global.top + 5 * WORD_BYTES - global.max < global.spare);
          CopyException(ex, o);
          CopyLadderRungs(ex, o, emergency);
          if !bin.TAtom? {
            frozen := true;
          }
        }
      }
      pending := true;
      return false;
    }
  }

  /**
   * What the replace-if-not-lower rule means for the classes: any bound
   * exception replaces an empty slot; an error never displaces a resource,
   * time-out or unwind exception; and an unwind-family exception displaces
   * every error.
   */
  lemma RaisePriority(pendingEx: Term, ex: Term)
    requires !ex.TVar?
    ensures pendingEx.TVar? ==> Rank(Classify(ex)) >= Rank(Classify(pendingEx))
    ensures IsFunctor(ex, "error", 2) && !IsResourceFormal(ex.args[0])
            && Classify(pendingEx) in {ExceptTimeout, ExceptResource, ExceptUnwind, ExceptAbort, ExceptHalt, ExceptThreadExit}
            ==> Rank(Classify(ex)) < Rank(Classify(pendingEx))
    ensures IsFunctor(ex, "unwind", 1) && IsFunctor(pendingEx, "error", 2)
            ==> Rank(Classify(ex)) > Rank(Classify(pendingEx))
  {
  }
}
