/*
 * The frames that make a term handle (term_t) legal, and the scans that
 * valid_term_t()/valid_user_term_t() run over them (src/pl-fli.c:136-213).
 * Addresses are cell indices; a frame record occupies the cells from its
 * address up to its first slot.
 */
module FliFrames {

  import opened FliCells

  // Cells taken by a foreign-frame record and by a local-frame header.
  const FLI_FRAME_CELLS: nat := 1
  const LOCAL_FRAME_CELLS: nat := 1

  /** A foreign (fli) frame: its handles are the `size` cells after the record. */
  datatype FliFrame = FliFrame(addr: nat, size: nat, noFreeBefore: nat)

  /** An environment frame; foreign predicates receive their arguments in its argv. */
  datatype LocalFrame = LocalFrame(addr: nat, arity: nat, foreign: bool)

  /** fr+1: the first handle cell of a foreign frame. */
  function Slots(fr: FliFrame): nat { fr.addr + FLI_FRAME_CELLS }

  /** p0 <= p < p0+size. */
  predicate InFrame(fr: FliFrame, p: nat) { Slots(fr) <= p < Slots(fr) + fr.size }

  /** argFrameP(fr, i). */
  function ArgFrameP(fr: LocalFrame, i: nat): nat { fr.addr + LOCAL_FRAME_CELLS + i }

  predicate InArgv(fr: LocalFrame, p: nat) { ArgFrameP(fr, 0) <= p < ArgFrameP(fr, fr.arity) }

  /** Older frames lie wholly below younger ones (the innermost frame is last). */
  predicate FliOrdered(fli: seq<FliFrame>) {
    forall i, j :: 0 <= i < j < |fli| ==> Slots(fli[i]) + fli[i].size <= fli[j].addr
  }

  predicate EnvOrdered(env: seq<LocalFrame>) {
    forall i, j :: 0 <= i < j < |env| ==> ArgFrameP(env[i], env[i].arity) <= env[j].addr
  }

  /*****************************************************************
   * in_foreign_frame()
   *****************************************************************/

  /**
   * in_foreign_frame(): walk from fli_context towards older frames; stop at
   * the first frame holding p, or give up once the frame lies below p.
   * The result is the index of the frame.
   */
  function InForeignFrame(fli: seq<FliFrame>, p: nat): (r: Option<nat>)
    ensures r.Some? ==> r.value < |fli| && InFrame(fli[r.value], p)
  {
    if fli == [] then None
    else
      var fr := fli[|fli| - 1];
      if InFrame(fr, p) then Some(|fli| - 1)
      else if fr.addr < p then None
      else InForeignFrame(fli[..|fli| - 1], p)
  }

  /** With ordered frames the early stop loses nothing: every slot of every frame is found. */
  lemma {:induction false} InForeignFrameComplete(fli: seq<FliFrame>, i: nat, p: nat)
    requires FliOrdered(fli) && i < |fli| && InFrame(fli[i], p)
    ensures InForeignFrame(fli, p) == Some(i)
  {
    var last := |fli| - 1;
    if i < last {
      assert Slots(fli[i]) + fli[i].size <= fli[last].addr;
      assert !InFrame(fli[last], p);
      var init := fli[..last];
      assert init[i] == fli[i];
      InForeignFrameComplete(init, i, p);
    }
  }

  /*****************************************************************
   * in_foreign_argv()
   *****************************************************************/

  /** in_foreign_argv(): the same walk over environment frames, argv of foreign ones only. */
  function InForeignArgv(env: seq<LocalFrame>, p: nat): bool {
    if env == [] then false
    else
      var fr := env[|env| - 1];
      if fr.foreign && InArgv(fr, p) then true
      else if fr.addr < p then false
      else InForeignArgv(env[..|env| - 1], p)
  }

  /** Whatever the walk accepts lies in the argv of a foreign frame. */
  lemma {:induction false} InForeignArgvSound(env: seq<LocalFrame>, p: nat)
    requires InForeignArgv(env, p)
    ensures exists i :: 0 <= i < |env| && env[i].foreign && InArgv(env[i], p)
  {
    var last := |env| - 1;
    if !(env[last].foreign && InArgv(env[last], p)) {
      var init := env[..last];
      InForeignArgvSound(init, p);
      var i :| 0 <= i < |init| && init[i].foreign && InArgv(init[i], p);
      assert env[i] == init[i];
    }
  }

  lemma {:induction false} InForeignArgvComplete(env: seq<LocalFrame>, i: nat, p: nat)
    requires EnvOrdered(env) && i < |env| && env[i].foreign && InArgv(env[i], p)
    ensures InForeignArgv(env, p)
  {
    var last := |env| - 1;
    if i < last {
      assert ArgFrameP(env[i], env[i].arity) <= env[last].addr;
      var init := env[..last];
      assert init[i] == env[i];
      InForeignArgvComplete(init, i, p);
    }
  }

  /*****************************************************************
   * in_query_arguments()
   *****************************************************************/

  /** in_query_arguments() as written: `p > argFrameP(fr, 0)`, so the first argument is missed. */
  function InQueryArgumentsAsWritten(queries: seq<LocalFrame>, p: nat): bool
  {
    exists i :: 0 <= i < |queries| && ArgFrameP(queries[i], 0) < p < ArgFrameP(queries[i], queries[i].arity)
  }

  /** What the written test accepts is an argument slot of a query, never its first. */
  lemma InQueryArgumentsAsWrittenSound(queries: seq<LocalFrame>, p: nat)
    ensures InQueryArgumentsAsWritten(queries, p)
            ==> exists i :: 0 <= i < |queries| && p != ArgFrameP(queries[i], 0) && InArgv(queries[i], p)
  {
  }

  /**
   * in_query_arguments() with the bound of in_foreign_argv(): `p >=
   * argFrameP(fr, 0)`.  It accepts what the written test accepts, and the
   * first argument of every query with arguments besides.
   */
  function InQueryArguments(queries: seq<LocalFrame>, p: nat): bool
  {
    exists i :: 0 <= i < |queries| && InArgv(queries[i], p)
  }

  /** The corrected test is the written one widened by exactly the first argument slots. */
  lemma InQueryArgumentsWidens(queries: seq<LocalFrame>, p: nat)
    ensures InQueryArguments(queries, p)
            <==> InQueryArgumentsAsWritten(queries, p)
                 || exists i :: 0 <= i < |queries| && queries[i].arity >= 1 && p == ArgFrameP(queries[i], 0)
  {
  }

  /** The first argument of a query's frame is refused as written and accepted when corrected. */
  lemma QueryFirstArgumentMissed(q: LocalFrame)
    requires q.arity >= 1
    ensures !InQueryArgumentsAsWritten([q], ArgFrameP(q, 0))
    ensures InQueryArguments([q], ArgFrameP(q, 0))
  {
    assert InArgv([q][0], ArgFrameP(q, 0));
  }

  /** Apart from that slot the two versions agree. */
  lemma QueryArgumentsAgreeElsewhere(queries: seq<LocalFrame>, p: nat)
    requires forall i :: 0 <= i < |queries| ==> p != ArgFrameP(queries[i], 0)
    ensures InQueryArgumentsAsWritten(queries, p) == InQueryArguments(queries, p)
  {
  }

  /*****************************************************************
   * valid_term_t() / valid_user_term_t()
   *****************************************************************/

  /**
   * valid_term_t() on the cell p a handle designates: on the local stack,
   * not freed, and in a foreign predicate's argv, a foreign frame, or a
   * query's argument frame.  `freed` says the cell holds ATOM_term_t_free.
   */
  predicate ValidTermT(lBase: nat, lTop: nat, freed: bool, env: seq<LocalFrame>,
                       fli: seq<FliFrame>, queries: seq<LocalFrame>, p: nat)
  {
    lBase <= p < lTop && !freed
    && (InForeignArgv(env, p) || InForeignFrame(fli, p).Some? || InQueryArguments(queries, p))
  }

  /** valid_user_term_t(): only cells of a foreign frame. */
  predicate ValidUserTermT(lBase: nat, lTop: nat, freed: bool, fli: seq<FliFrame>, p: nat)
  {
    lBase <= p < lTop && !freed && InForeignFrame(fli, p).Some?
  }

  /** valid_term_t() is valid_user_term_t() widened by the argv and query-argument slots. */
  lemma ValidTermTCases(lBase: nat, lTop: nat, freed: bool, env: seq<LocalFrame>,
                        fli: seq<FliFrame>, queries: seq<LocalFrame>, p: nat)
    ensures ValidTermT(lBase, lTop, freed, env, fli, queries, p)
            <==> ValidUserTermT(lBase, lTop, freed, fli, p)
                 || (lBase <= p < lTop && !freed && (InForeignArgv(env, p) || InQueryArguments(queries, p)))
  {
  }

  /** Every handle a user may free is a valid handle, and one is valid there exactly when a frame holds it. */
  lemma ValidUserTermTChar(lBase: nat, lTop: nat, freed: bool, env: seq<LocalFrame>,
                           fli: seq<FliFrame>, queries: seq<LocalFrame>, p: nat)
    requires FliOrdered(fli)
    ensures ValidUserTermT(lBase, lTop, freed, fli, p) ==> ValidTermT(lBase, lTop, freed, env, fli, queries, p)
    ensures ValidUserTermT(lBase, lTop, freed, fli, p)
            <==> lBase <= p < lTop && !freed && exists i :: 0 <= i < |fli| && InFrame(fli[i], p)
  {
    if lBase <= p < lTop && !freed && exists i :: 0 <= i < |fli| && InFrame(fli[i], p) {
      var i :| 0 <= i < |fli| && InFrame(fli[i], p);
      InForeignFrameComplete(fli, i, p);
    }
  }
}
