/*
 * The term-handle layer of src/pl-fli.c over one engine's stacks: the
 * handle allocator (PL_new_term_ref(s), PL_free_term_ref,
 * PL_reset_term_refs, PL_copy_term_ref), the temporary handles of
 * pushWordAsTermRef()/popTermRef(), the binding primitives
 * (globalizeTermRef, linkValG/linkValNoG, bArgVar, bindConsVal, bindConst)
 * and the term builders that write structures at gTop.
 *
 * A term_t is the offset of its cell from lBase.  The global stack is the
 * cells [0, gTop), the local stack [lBase, lTop); the array ends at lMax.
 */
module FliEngine {

  import opened FliCells
  import opened FliFrames
  import opened FliBind

  /**
   * The frame chain is in stack order, above lBase, and every reserved
   * temporary handle lies below its first frame.
   */
  predicate FramesOk(fli: seq<FliFrame>, lBase: nat, tmp: seq<nat>) {
    |fli| > 0 && FliOrdered(fli) && lBase < fli[0].addr
    && forall i :: 0 <= i < |tmp| ==> lBase + tmp[i] < fli[0].addr
  }

  /** Resizing the innermost frame, or changing any frame but its size, keeps the chain in order. */
  lemma FliReplaceFrame(fli: seq<FliFrame>, j: nat, fr: FliFrame, lBase: nat, tmp: seq<nat>)
    requires FramesOk(fli, lBase, tmp) && j < |fli| && fr.addr == fli[j].addr
    requires j == |fli| - 1 || fr.size == fli[j].size
    ensures FramesOk(fli[j := fr], lBase, tmp)
  {
    var f := fli[j := fr];
    forall a, b | 0 <= a < b < |f| ensures Slots(f[a]) + f[a].size <= f[b].addr {
      assert Slots(fli[a]) + fli[a].size <= fli[b].addr;
    }
    assert f[0].addr == fli[0].addr;
  }

  class Engine {
    /** The stack area; its size is lMax.  Neither the array nor lBase moves (no stack shifts). */
    const mem: array<Cell>
    const lBase: nat
    var gTop: nat
    var lTop: nat
    /** The chain of foreign frames; the last one is fli_context. */
    var fli: seq<FliFrame>
    /** Environment frames and the frames of open queries (read by valid_term_t()). */
    const env: seq<LocalFrame>
    const queries: seq<LocalFrame>
    /** Addresses of trailed bindings, oldest first. */
    var trail: seq<nat>
    /** LD->tmp.h: handles reserved for pushWordAsTermRef(); tmpTop is LD->tmp.top. */
    const tmp: seq<nat>
    var tmpTop: nat

    /** What holds of the fields no operation of this layer reassigns. */
    predicate Static()
    {
      (forall i :: 0 <= i < |env| ==> lBase <= env[i].addr)
      && (forall i :: 0 <= i < |queries| ==> lBase <= queries[i].addr)
      && (forall i :: 0 <= i < |tmp| ==> 0 < tmp[i])
    }

    /** Everything but the cells: stack order, the frame chain and fr->size. */
    ghost predicate Layout()
      reads this
    {
      Static()
      && gTop <= lBase < lTop <= mem.Length
      && FramesOk(fli, lBase, tmp)
      // the invariant pl-fli.c checks under O_CHECK_TERM_REFS: lTop - (fr+1) == fr->size
      && Slots(fli[|fli| - 1]) + fli[|fli| - 1].size == lTop
      && tmpTop <= |tmp|
    }

    ghost predicate Valid()
      reads this, mem
    {
      Layout() && RefsOk(mem[..], gTop, gTop, lBase) && LocalNoAttVar(mem[..], lBase)
    }

    /**
     * An engine in a consistent state: the global stack below gTop, the
     * foreign frames ending at lTop, and the reference invariant.
     */
    constructor (m: array<Cell>, base: nat, g: nat, frames: seq<FliFrame>, envs: seq<LocalFrame>,
                 qs: seq<LocalFrame>, handles: seq<nat>)
      requires g <= base < m.Length && |frames| > 0 && FliOrdered(frames) && base < frames[0].addr
      requires Slots(frames[|frames| - 1]) + frames[|frames| - 1].size <= m.Length
      requires base < Slots(frames[|frames| - 1]) + frames[|frames| - 1].size
      requires forall i :: 0 <= i < |envs| ==> base <= envs[i].addr
      requires forall i :: 0 <= i < |qs| ==> base <= qs[i].addr
      requires forall i :: 0 <= i < |handles| ==> 0 < handles[i] && base + handles[i] < frames[0].addr
      requires RefsOk(m[..], g, g, base) && LocalNoAttVar(m[..], base)
      ensures Valid() && mem == m && lBase == base && gTop == g && fli == frames
      ensures lTop == Slots(frames[|frames| - 1]) + frames[|frames| - 1].size
      ensures env == envs && queries == qs && tmp == handles && tmpTop == 0 && trail == []
    {
      mem := m;
      lBase := base;
      gTop := g;
      lTop := Slots(frames[|frames| - 1]) + frames[|frames| - 1].size;
      fli := frames;
      env := envs;
      queries := qs;
      tmp := handles;
      tmpTop := 0;
      trail := [];
    }

    /** fli_context. */
    function Current(): FliFrame
      reads this
      requires |fli| > 0
    {
      fli[|fli| - 1]
    }

    /** valTermRef(): the cell of a handle. */
    function Addr(h: nat): nat
    {
      lBase + h
    }

    /** A live cell: on the global stack below gTop, or on the local stack. */
    predicate Live(p: nat)
      reads this
    {
      p < gTop || lBase < p < lTop
    }

    /** The handle cell holds the ATOM_term_t_free tombstone. */
    ghost predicate Freed(h: nat)
      reads this, mem
    {
      Addr(h) < mem.Length && mem[Addr(h)] == TermTFree
    }

    /** valid_term_t() accepts the handle. */
    ghost predicate TermT(h: nat)
      reads this, mem
    {
      ValidTermT(lBase, lTop, Freed(h), env, fli, queries, Addr(h))
    }

    /** valid_user_term_t() accepts the handle. */
    ghost predicate UserTermT(h: nat)
      reads this, mem
    {
      ValidUserTermT(lBase, lTop, Freed(h), fli, Addr(h))
    }

    /** A valid handle designates a cell strictly above lBase, so term_t 0 is never valid. */
    lemma TermTIsLocal(h: nat)
      requires Layout() && TermT(h)
      ensures lBase < Addr(h) < lTop && h > 0
    {
      var p := Addr(h);
      if InForeignArgv(env, p) {
        InForeignArgvSound(env, p);
      } else if InForeignFrame(fli, p).Some? {
        var i := InForeignFrame(fli, p).value;
        if i > 0 {
          assert Slots(fli[0]) + fli[0].size <= fli[i].addr;
        }
      }
    }

    /** Three valid handles at once, for the calls that take three. */
    lemma TermTsAreLocal(a: nat, b: nat, c: nat)
      requires Layout() && TermT(a) && TermT(b) && TermT(c)
      ensures lBase < Addr(a) < lTop && lBase < Addr(b) < lTop && lBase < Addr(c) < lTop
    {
      TermTIsLocal(a);
      TermTIsLocal(b);
      TermTIsLocal(c);
    }

    lemma UserTermTIsTermT(h: nat)
      requires Layout() && UserTermT(h)
      ensures TermT(h) && lBase < Addr(h) < lTop && h > 0
    {
      ValidUserTermTChar(lBase, lTop, Freed(h), env, fli, queries, Addr(h));
      TermTIsLocal(h);
    }

    /** Every store goes through here; WriteOk says why the invariant survives it. */
    method Store(p: nat, v: Cell, ghost up: nat, ghost loc: nat)
      requires p < mem.Length
      requires RefsOk(mem[..], up, loc, lBase) && LocalNoAttVar(mem[..], lBase)
      requires WriteOk(mem[..], up, loc, lBase, p, v)
      modifies mem
      ensures mem[..] == old(mem[..])[p := v]
      ensures RefsOk(mem[..], up, loc, lBase) && LocalNoAttVar(mem[..], lBase)
    {
      WritePreservesRefs(mem[..], up, loc, lBase, p, v);
      mem[p] := v;
    }

    /*****************************************************************
     * Handle allocation (src/pl-fli.c:451-533, 607-641)
     *****************************************************************/

    /**
     * PL_new_term_refs(): n fresh unbound handles at lTop, all in the
     * current foreign frame; 0 and no change when the local stack is full.
     */
    method NewTermRefs(n: nat) returns (h: nat)
      requires Valid()
      modifies this, mem
      ensures Valid() && gTop == old(gTop) && trail == old(trail) && tmpTop == old(tmpTop)
      ensures old(lTop) + n > mem.Length ==>
                h == 0 && lTop == old(lTop) && fli == old(fli) && mem[..] == old(mem[..])
      ensures old(lTop) + n <= mem.Length ==>
                h > 0 && Addr(h) == old(lTop) && lTop == old(lTop) + n
                && fli == old(fli)[|old(fli)| - 1 := old(Current()).(size := old(Current()).size + n)]
                && (forall k :: 0 <= k < mem.Length ==>
                      mem[k] == if old(lTop) <= k < lTop then Var else old(mem[k]))
    {
      if lTop + n > mem.Length {           // !ensureLocalSpace()
        return 0;
      }
      var t := lTop;
      h := t - lBase;
      var i := 0;
      while i < n
        modifies mem
        invariant 0 <= i <= n
        invariant RefsOk(mem[..], gTop, gTop, lBase) && LocalNoAttVar(mem[..], lBase)
        invariant forall k :: 0 <= k < mem.Length ==> mem[k] == if t <= k < t + i then Var else old(mem[k])
      {
        Store(t + i, Var, gTop, gTop);
        i := i + 1;
      }
      lTop := t + n;
      FliReplaceFrame(fli, |fli| - 1, Current().(size := Current().size + n), lBase, tmp);
      fli := fli[|fli| - 1 := Current().(size := Current().size + n)];
    }

    /** new_term_ref(): one fresh handle; the caller has checked the space. */
    method NewTermRefUnchecked() returns (h: nat)
      requires Valid() && lTop + 1 <= mem.Length
      modifies this, mem
      ensures Valid() && gTop == old(gTop) && trail == old(trail) && tmpTop == old(tmpTop)
      ensures h > 0 && Addr(h) == old(lTop) && lTop == old(lTop) + 1
      ensures fli == old(fli)[|old(fli)| - 1 := old(Current()).(size := old(Current()).size + 1)]
      ensures mem[..] == old(mem[..])[Addr(h) := Var]
      ensures UserTermT(h)
    {
      var t := lTop;
      h := t - lBase;
      Store(t, Var, gTop, gTop);
      GrowTop();
      InForeignFrameComplete(fli, |fli| - 1, t);
    }

    /** PL_new_term_ref(): ensureLocalSpace() for one cell, then new_term_ref(). */
    method NewTermRef() returns (h: nat)
      requires Valid()
      modifies this, mem
      ensures Valid() && gTop == old(gTop) && trail == old(trail) && tmpTop == old(tmpTop)
      ensures old(lTop) + 1 > mem.Length ==> h == 0 && lTop == old(lTop) && fli == old(fli) && mem[..] == old(mem[..])
      ensures old(lTop) + 1 <= mem.Length ==>
                h > 0 && Addr(h) == old(lTop) && lTop == old(lTop) + 1 && UserTermT(h)
                && mem[..] == old(mem[..])[Addr(h) := Var]
    {
      if lTop + 1 > mem.Length {
        return 0;
      }
      h := NewTermRefUnchecked();
    }

    /**
     * PL_new_term_ref_noshift(): the same, but the test is lTop+1 > lMax
     * (it never grows the stack).  Without stack growth in this model the
     * two coincide.
     */
    method NewTermRefNoShift() returns (h: nat)
      requires Valid()
      modifies this, mem
      ensures Valid() && gTop == old(gTop) && trail == old(trail) && tmpTop == old(tmpTop)
      ensures old(lTop) + 1 > mem.Length ==> h == 0 && lTop == old(lTop) && fli == old(fli) && mem[..] == old(mem[..])
      ensures old(lTop) + 1 <= mem.Length ==>
                h > 0 && Addr(h) == old(lTop) && lTop == old(lTop) + 1 && UserTermT(h)
                && mem[..] == old(mem[..])[Addr(h) := Var]
    {
      if lTop + 1 > mem.Length {
        return 0;
      }
      h := NewTermRefUnchecked();
    }

    /** The top handle of fli_context is popped: lTop and fr->size drop by one. */
    method PopTopHandle(p: nat)
      requires Valid() && p + 1 == lTop && Slots(Current()) <= p
      modifies this
      ensures Valid() && gTop == old(gTop) && trail == old(trail) && tmpTop == old(tmpTop)
      ensures lTop == old(lTop) - 1 && mem[..] == old(mem[..]) && old(Current()).size >= 1
      ensures fli == old(fli)[|old(fli)| - 1 := old(Current()).(size := old(Current()).size - 1)]
    {
      lTop := p;
      FliReplaceFrame(fli, |fli| - 1, Current().(size := Current().size - 1), lBase, tmp);
      fli := fli[|fli| - 1 := Current().(size := Current().size - 1)];
    }

    /** A handle of frame i below the top is overwritten with the tombstone; no_free_before drops to its index. */
    method Tombstone(p: nat, i: nat)
      requires Valid() && i < |fli| && InFrame(fli[i], p) && lBase < p < lTop
      modifies this, mem
      ensures Valid() && gTop == old(gTop) && trail == old(trail) && tmpTop == old(tmpTop) && lTop == old(lTop)
      ensures var fr := old(fli)[i];
              var idx := p - Slots(fr);
              mem[..] == old(mem[..])[p := TermTFree]
              && fli == old(fli)[i := fr.(noFreeBefore := if idx < fr.noFreeBefore then idx else fr.noFreeBefore)]
    {
      var fr := fli[i];
      var idx := p - Slots(fr);
      if idx < fr.noFreeBefore {
        FliReplaceFrame(fli, i, fr.(noFreeBefore := idx), lBase, tmp);
        fli := fli[i := fr.(noFreeBefore := idx)];
      }
      Store(p, TermTFree, gTop, gTop);
    }

    /**
     * PL_free_term_ref(): the top handle is popped (lTop and fr->size drop
     * by one); any other is overwritten with the tombstone, and its frame's
     * no_free_before drops to the handle's index if that is lower.
     */
    method FreeTermRef(h: nat)
      requires Valid() && UserTermT(h)
      modifies this, mem
      ensures Valid() && gTop == old(gTop) && trail == old(trail) && tmpTop == old(tmpTop)
      ensures Addr(h) + 1 == old(lTop) ==>
                lTop == old(lTop) - 1 && mem[..] == old(mem[..])
                && old(Current()).size >= 1
                && fli == old(fli)[|old(fli)| - 1 := old(Current()).(size := old(Current()).size - 1)]
      ensures Addr(h) + 1 != old(lTop) ==>
                var i := InForeignFrame(old(fli), Addr(h)).value;
                var fr := old(fli)[i];
                var idx := Addr(h) - Slots(fr);
                lTop == old(lTop) && mem[..] == old(mem[..])[Addr(h) := TermTFree]
                && fli == old(fli)[i := fr.(noFreeBefore := if idx < fr.noFreeBefore then idx else fr.noFreeBefore)]
    {
      UserTermTIsTermT(h);
      var p := lBase + h;
      var i := InForeignFrame(fli, p).value;
      if p + 1 == lTop {
        PopTopHandle(p);
      } else {
        Tombstone(p, i);
      }
    }


    /**
     * PL_reset_term_refs(): lTop drops back to the handle and fr->size
     * becomes its distance from the frame's first slot.  The source asserts
     * (in debug builds) that the size does not go negative.
     */
    method ResetTermRefs(h: nat)
      requires Valid() && Slots(Current()) <= Addr(h) <= lTop
      modifies this
      ensures Valid() && gTop == old(gTop) && trail == old(trail) && tmpTop == old(tmpTop)
      ensures lTop == Addr(h) && mem[..] == old(mem[..])
      ensures fli == old(fli)[|old(fli)| - 1 := old(Current()).(size := Addr(h) - Slots(old(Current())))]
      ensures Current().size <= old(Current()).size
    {
      lTop := lBase + h;
      FliReplaceFrame(fli, |fli| - 1, Current().(size := lTop - Slots(Current())), lBase, tmp);
      fli := fli[|fli| - 1 := Current().(size := lTop - Slots(Current()))];
    }

    /*****************************************************************
     * Dereferencing and linking (src/pl-fli.c:320-381)
     *****************************************************************/

    /** The deRef() loop. */
    method DerefCell(p: nat, ghost up: nat, ghost loc: nat) returns (q: nat)
      requires p < mem.Length && RefsOk(mem[..], up, loc, lBase)
      ensures q == Deref(mem[..], p) && !mem[q].Ref?
    {
      q := p;
      while mem[q].Ref?
        invariant q < mem.Length && Deref(mem[..], q) == Deref(mem[..], p)
        decreases if mem[q].Ref? then q + 1 else 0
      {
        assert RefOkAt(mem[..], up, loc, lBase, q);
        q := mem[q].addr;
      }
    }

    /**
     * linkValNoG(): the word to store for the value at p; a local unbound
     * variable comes back unlinked.
     */
    method LinkValNoGAt(p: nat) returns (w: Cell)
      requires Valid() && p < mem.Length && Live(p)
      ensures w == LinkValNoG(mem[..], lBase, p)
      ensures !w.AttVar? && (w.Ref? ==> w.addr < gTop && CanBind(mem[w.addr]))
    {
      var q := DerefCell(p, gTop, gTop);
      w := mem[q];
      if CanBind(w) && q < lBase {
        w := Ref(q);
      }
      LinkValNoGFacts(mem[..], gTop, gTop, lBase, p);
    }

    /**
     * linkValG(): as linkValNoG(), but a local unbound variable is first
     * bound (and trailed) to a fresh global variable, whose reference is
     * returned.  None stands for the 0 returned when the global stack is
     * full.  A chain that ends in a variable returns its last reference.
     */
    method LinkValGAt(p: nat) returns (w: Option<Cell>)
      requires Valid() && lBase < p < lTop
      modifies this, mem
      ensures Valid() && lTop == old(lTop) && fli == old(fli) && tmpTop == old(tmpTop)
      ensures var q := Deref(old(mem[..]), p);
              if !CanBind(old(mem[q])) then w == Some(old(mem[q])) && unchanged(this, mem)
              else if q != p then w == Some(Ref(q)) && unchanged(this, mem)
              else if old(gTop) + 1 > lBase then w.None? && unchanged(this, mem)
              else w == Some(Ref(old(gTop))) && gTop == old(gTop) + 1 && trail == old(trail) + [p]
                   && mem[..] == old(mem[..])[old(gTop) := Var][p := Ref(old(gTop))]
    {
      DerefFacts(mem[..], gTop, gTop, lBase, p);
      var q := p;
      var c := mem[q];
      while c.Ref?
        invariant q < mem.Length && Deref(mem[..], q) == Deref(mem[..], p) && c == mem[q]
        invariant q != p ==> q < lBase
        decreases if c.Ref? then q + 1 else 0
      {
        assert RefOkAt(mem[..], gTop, gTop, lBase, q);
        var r := c;
        q := c.addr;
        if CanBind(mem[q]) {
          return Some(r);
        }
        c := mem[q];
      }
      if CanBind(c) {
        if q > lBase {
          if gTop + 1 > lBase {            // makeMoreStackSpace() failed
            return None;
          }
          var v := gTop;
          Store(v, Var, gTop, gTop);
          gTop := gTop + 1;
          RefsOkWeaken(mem[..], v, v, gTop, gTop, lBase);
          Store(q, Ref(v), gTop, gTop);
          trail := trail + [q];
          return Some(Ref(v));
        }
        return Some(Ref(q));
      }
      return Some(c);
    }

    /**
     * globalizeTermRef(): a handle holding an unbound (local) variable is
     * bound, and trailed, to a fresh global variable; any other handle is
     * left alone.  false is the stack-overflow result.
     */
    method Globalize(h: nat) returns (ok: bool)
      requires Valid() && lBase < Addr(h) < lTop
      modifies this, mem
      ensures Valid() && lTop == old(lTop) && fli == old(fli) && tmpTop == old(tmpTop)
      ensures !old(mem[Addr(h)]).Var? ==> ok && unchanged(this, mem)
      ensures old(mem[Addr(h)]).Var? && old(gTop) + 1 > lBase ==> !ok && unchanged(this, mem)
      ensures old(mem[Addr(h)]).Var? && old(gTop) + 1 <= lBase ==>
                ok && gTop == old(gTop) + 1 && trail == old(trail) + [Addr(h)]
                && mem[..] == old(mem[..])[old(gTop) := Var][Addr(h) := Ref(old(gTop))]
      ensures ok ==> !mem[Addr(h)].Var?
    {
      var p := lBase + h;
      if mem[p].Var? {
        if gTop + 1 > lBase {              // ensureGlobalSpace() failed: raiseStackOverflow()
          return false;
        }
        var v := gTop;
        Store(v, Var, gTop, gTop);
        gTop := gTop + 1;
        RefsOkWeaken(mem[..], v, v, gTop, gTop, lBase);
        Store(p, Ref(v), gTop, gTop);
        trail := trail + [p];
      }
      return true;
    }

    /**
     * PL_copy_term_ref(): a new handle denoting the same term as `from`.
     * A variable in `from` is globalized first, so both handles then
     * reference the same global variable.
     */
    method CopyTermRef(from: nat) returns (h: nat)
      requires Valid() && lBase < Addr(from) < lTop
      modifies this, mem
      ensures Valid() && tmpTop == old(tmpTop)
      ensures old(lTop) + 1 > mem.Length ==> h == 0 && unchanged(this, mem)
      ensures h == 0 ==> lTop == old(lTop) && fli == old(fli)
      ensures h != 0 ==>
                Addr(h) == old(lTop) && lTop == old(lTop) + 1
                && fli == old(fli)[|old(fli)| - 1 := old(Current()).(size := old(Current()).size + 1)]
                && LinkValI(mem[..], Addr(h)) == LinkValI(mem[..], Addr(from))
      ensures h != 0 && !old(mem[Addr(from)]).Var? ==>
                LinkValI(mem[..], Addr(from)) == old(LinkValI(mem[..], Addr(from)))
    {
      if lTop + 1 > mem.Length {
        return 0;
      }
      ghost var mIn := mem[..];
      var ok := Globalize(from);
      if !ok {
        return 0;
      }
      assert !mIn[lBase + from].Var? ==> mem[..] == mIn;
      h := PushHandleLink(lBase + from);
    }

    /** The tail of PL_copy_term_ref(): a handle at lTop set to linkValI(p). */
    method PushHandleLink(p: nat) returns (h: nat)
      requires Valid() && lTop + 1 <= mem.Length && lBase < p < lTop && !mem[p].Var?
      modifies this, mem
      ensures Valid() && tmpTop == old(tmpTop) && gTop == old(gTop) && trail == old(trail)
      ensures Addr(h) == old(lTop) && lTop == old(lTop) + 1 && h != 0
      ensures fli == old(fli)[|old(fli)| - 1 := old(Current()).(size := old(Current()).size + 1)]
      ensures SameTerm(mem[..], Addr(h), p) && LinkValI(mem[..], p) == old(LinkValI(mem[..], p))
    {
      var t := lTop;
      SetHandleLink(t, p);
      h := t - lBase;
      GrowTop();
    }

    /** The cell at lTop joins fli_context: lTop and fr->size grow by one. */
    method GrowTop()
      requires Valid() && lTop + 1 <= mem.Length
      modifies this
      ensures Valid() && gTop == old(gTop) && trail == old(trail) && tmpTop == old(tmpTop)
      ensures lTop == old(lTop) + 1
      ensures fli == old(fli)[|old(fli)| - 1 := old(Current()).(size := old(Current()).size + 1)]
    {
      lTop := lTop + 1;
      FliReplaceFrame(fli, |fli| - 1, Current().(size := Current().size + 1), lBase, tmp);
      fli := fli[|fli| - 1 := Current().(size := Current().size + 1)];
    }

    lemma FramesBelowTop()
      requires Layout()
      ensures forall i :: 0 <= i < |fli| ==> Slots(fli[i]) + fli[i].size <= lTop
    {
      forall i | 0 <= i < |fli| ensures Slots(fli[i]) + fli[i].size <= lTop {
        if i < |fli| - 1 {
          assert Slots(fli[i]) + fli[i].size <= fli[|fli| - 1].addr;
        }
      }
    }

    /*****************************************************************
     * Stores
     *****************************************************************/

    /**
     * A store of a non-reference into a global cell above everything
     * reachable (a cell of a structure being built): no live cell changes
     * the term it denotes.
     */
    method StoreFresh(x: nat, v: Cell, ghost up: nat, ghost loc: nat)
      requires RefsOk(mem[..], up, loc, lBase) && LocalNoAttVar(mem[..], lBase)
      requires up <= loc <= x < lBase && x < mem.Length && !v.Ref?
      modifies mem
      ensures mem[..] == old(mem[..])[x := v]
      ensures RefsOk(mem[..], up, x + 1, lBase) && LocalNoAttVar(mem[..], lBase)
      ensures forall r :: 0 <= r < mem.Length && (r < loc || lBase <= r) ==>
                Deref(mem[..], r) == Deref(old(mem[..]), r) && LinkValI(mem[..], r) == LinkValI(old(mem[..]), r)
    {
      ghost var m := mem[..];
      WritePreservesRefs(m, up, loc, lBase, x, v);
      mem[x] := v;
      RefsOkWeaken(mem[..], up, loc, up, x + 1, lBase);
      forall r | 0 <= r < mem.Length && (r < loc || lBase <= r)
        ensures Deref(mem[..], r) == Deref(m, r) && LinkValI(mem[..], r) == LinkValI(m, r)
      {
        LinkValStoreElsewhere(m, mem[..], up, loc, lBase, x, r);
      }
    }

    /** setHandle() with a value word: every other live cell keeps its term. */
    method SetHandle(x: nat, v: Cell)
      requires Valid() && lBase <= x < mem.Length && !v.Ref? && !v.AttVar?
      modifies mem
      ensures Valid() && mem[..] == old(mem[..])[x := v]
    {
      Store(x, v, gTop, gTop);
    }

    /** setHandle(x, linkValI(p)): the local cell x comes to denote p's term. */
    method SetHandleLink(x: nat, p: nat)
      requires Valid() && lBase <= x < mem.Length && p < mem.Length && p != x && Live(p)
      requires lBase <= p ==> !mem[p].Var?
      modifies mem
      ensures Valid() && mem[..] == old(mem[..])[x := LinkValI(old(mem[..]), p)]
      ensures SameTerm(mem[..], x, p) && LinkValI(mem[..], p) == LinkValI(old(mem[..]), p)
      ensures forall r :: 0 <= r < mem.Length && r != x && (r < gTop || lBase <= r) ==>
                Deref(mem[..], r) == Deref(old(mem[..]), r) && LinkValI(mem[..], r) == LinkValI(old(mem[..]), r)
    {
      ghost var m := mem[..];
      CopyLinkVal(m, gTop, lBase, x, p);
      Store(x, LinkValI(mem[..], p), gTop, gTop);
      forall r | 0 <= r < mem.Length && r != x && (r < gTop || lBase <= r)
        ensures Deref(mem[..], r) == Deref(m, r) && LinkValI(mem[..], r) == LinkValI(m, r)
      {
        LinkValStoreElsewhere(m, mem[..], gTop, gTop, lBase, x, r);
      }
    }

    /**
     * bindConst(): bind the unbound cell q to c (an atomic word or a
     * compound pointer) and trail it.  Every cell whose chain ended at q
     * now denotes c.
     */
    method BindConst(q: nat, c: Cell)
      requires Valid() && q < mem.Length && CanBind(mem[q]) && !c.Ref? && !CanBind(c)
      modifies this, mem
      ensures Valid() && gTop == old(gTop) && lTop == old(lTop) && fli == old(fli) && tmpTop == old(tmpTop)
      ensures mem[..] == old(mem[..])[q := c] && trail == old(trail) + [q]
      ensures forall p :: 0 <= p < mem.Length ==> Deref(mem[..], p) == Deref(old(mem[..]), p)
      ensures forall p :: 0 <= p < mem.Length ==>
                LinkValI(mem[..], p) == if Deref(old(mem[..]), p) == q then c else LinkValI(old(mem[..]), p)
    {
      BindConstFacts(mem[..], gTop, gTop, lBase, q, c);
      mem[q] := c;
      trail := trail + [q];
    }

    /*****************************************************************
     * Temporary handles (src/pl-fli.c:404-420)
     *****************************************************************/

    /**
     * pushWordAsTermRef(): the next reserved handle takes linkValNoG(p).
     * Unless p ends in an unbound local variable, the handle then denotes
     * p's term.
     */
    method PushWordAsTermRef(p: nat) returns (h: nat)
      requires Valid() && tmpTop < |tmp| && p < mem.Length && Live(p)
      modifies this, mem
      ensures Valid() && gTop == old(gTop) && lTop == old(lTop) && fli == old(fli) && trail == old(trail)
      ensures h == tmp[old(tmpTop)] && tmpTop == old(tmpTop) + 1
      ensures mem[..] == old(mem[..])[Addr(h) := LinkValNoG(old(mem[..]), lBase, p)]
      ensures var q := Deref(old(mem[..]), p);
              !(CanBind(old(mem[q])) && lBase <= q) ==> LinkValI(mem[..], Addr(h)) == LinkValI(old(mem[..]), p)
    {
      FramesBelowTop();
      h := tmp[tmpTop];
      tmpTop := tmpTop + 1;
      ghost var m := mem[..];
      LinkValNoGFacts(m, gTop, gTop, lBase, p);
      DerefFacts(m, gTop, gTop, lBase, p);
      var w := LinkValNoGAt(p);
      var x := lBase + h;
      Store(x, w, gTop, gTop);
      if w.Ref? {
        assert Deref(mem[..], w.addr) == w.addr;
        assert Deref(mem[..], x) == w.addr;
      } else {
        assert Deref(mem[..], x) == x;
      }
    }

    /** popTermRef(): release the last reserved handle, resetting its cell to a variable. */
    method PopTermRef()
      requires Valid() && 0 < tmpTop
      modifies this, mem
      ensures Valid() && gTop == old(gTop) && lTop == old(lTop) && fli == old(fli) && trail == old(trail)
      ensures tmpTop == old(tmpTop) - 1
      ensures mem[..] == old(mem[..])[Addr(tmp[tmpTop]) := Var]
    {
      FramesBelowTop();
      tmpTop := tmpTop - 1;
      Store(lBase + tmp[tmpTop], Var, gTop, gTop);
    }

    /*****************************************************************
     * bArgVar() and bindConsVal()
     *****************************************************************/

    /**
     * bArgVar(): unify the unbound argument cell ap of a new structure with
     * the value at vp.  Linking vp's variable down to ap is trailed.
     */
    method BArgVar(ap: nat, vp: nat)
      requires Valid() && ap < gTop && mem[ap].Var? && vp < mem.Length && Live(vp)
      requires Deref(mem[..], vp) != ap
      modifies this, mem
      ensures Valid() && gTop == old(gTop) && lTop == old(lTop) && fli == old(fli) && tmpTop == old(tmpTop)
      ensures mem[..] == BArgVarM(old(mem[..]), ap, vp)
      ensures var q := Deref(old(mem[..]), vp);
              trail == if old(mem[q]).Var? && ap < q then old(trail) + [q] else old(trail)
      ensures SameTerm(mem[..], ap, vp)
    {
      BArgVarFacts(mem[..], gTop, lBase, ap, vp);
      var q := DerefCell(vp, gTop, gTop);
      if mem[q].Var? {
        if ap < q {
          mem[ap] := Var;
          mem[q] := Ref(ap);
          trail := trail + [q];
        } else {
          mem[ap] := Ref(q);
        }
      } else if mem[q].AttVar? {
        mem[ap] := Ref(q);
      } else {
        mem[ap] := mem[q];
      }
    }

    /** bindConsVal(): fill the argument cell `to` of a structure being built from the handle cell p. */
    method BindConsValAt(to: nat, p: nat, ghost up: nat)
      requires RefsOk(mem[..], up, to, lBase) && to < mem.Length && p < mem.Length
      modifies mem
      ensures mem[..] == BindConsValM(old(mem[..]), to, p)
    {
      var q := DerefCell(p, up, to);
      if CanBind(mem[q]) {
        if to < q && !mem[q].AttVar? {
          mem[to] := Var;
          mem[q] := Ref(to);
        } else {
          mem[to] := Ref(q);
        }
      } else {
        mem[to] := mem[q];
      }
    }

    /*****************************************************************
     * Unifying a handle with a constant (src/pl-fli.c:666-678, 3581-3593)
     *****************************************************************/

    /**
     * PL_unify_atomic(): an unbound term is bound to w; a bound one unifies
     * only when it holds w: the same word, or for indirect data (big
     * integers, rationals, floats, strings) the same contents, which is what
     * equality of two Indirect cells means here.
     */
    method UnifyAtomic(h: nat, w: Cell) returns (r: bool)
      requires Valid() && TermT(h) && (w.Atom? || w.TaggedInt? || w.Indirect?)
      modifies this, mem
      ensures Valid() && gTop == old(gTop) && lTop == old(lTop) && fli == old(fli) && tmpTop == old(tmpTop)
      ensures var q := Deref(old(mem[..]), Addr(h));
              (r <==> CanBind(old(mem[q])) || old(mem[q]) == w)
              && (CanBind(old(mem[q])) ==> mem[..] == old(mem[..])[q := w] && trail == old(trail) + [q])
              && (!CanBind(old(mem[q])) ==> unchanged(this, mem))
      ensures r ==> LinkValI(mem[..], Addr(h)) == w
    {
      TermTIsLocal(h);
      var q := DerefCell(lBase + h, gTop, gTop);
      if CanBind(mem[q]) {
        BindConst(q, w);
        return true;
      }
      return mem[q] == w;
    }

    /**
     * PL_unify_bool(): an unbound term is bound to true or false; a bound
     * one unifies when it is one of the two atoms PL_get_bool() reads as val.
     */
    method UnifyBool(h: nat, val: bool) returns (r: bool)
      requires Valid() && TermT(h)
      modifies this, mem
      ensures Valid() && gTop == old(gTop) && lTop == old(lTop) && fli == old(fli) && tmpTop == old(tmpTop)
      ensures var q := Deref(old(mem[..]), Addr(h));
              (r <==> CanBind(old(mem[q])) || BoolMatches(old(mem[q]), val))
              && (CanBind(old(mem[q])) ==> mem[..] == old(mem[..])[q := BoolAtom(val)] && trail == old(trail) + [q])
              && (!CanBind(old(mem[q])) ==> unchanged(this, mem))
      ensures r ==> GetBool(LinkValI(mem[..], Addr(h))) == Some(val)
    {
      TermTIsLocal(h);
      var q := DerefCell(lBase + h, gTop, gTop);
      if CanBind(mem[q]) {
        BindConst(q, BoolAtom(val));
        UnifyBoolGetBoolRoundTrip(val);
        return true;
      }
      r := BoolMatches(mem[q], val);
    }

    /*****************************************************************
     * Building structures at gTop
     *****************************************************************/

    /**
     * Room for n cells on the global stack.  Stack growth is not modelled:
     * ensureGlobalSpace() and allocGlobal() succeed exactly when the room
     * is already there.
     */
    predicate HasGlobalSpace(n: nat)
      reads this
    {
      gTop + n <= lBase
    }

    /** allocGlobal(1+arity) filled with f(_,...,_): a functor cell and arity fresh variables. */
    method AllocStruct(fname: string, arity: nat) returns (c: Cell)
      requires Valid() && HasGlobalSpace(1 + arity)
      modifies this, mem
      ensures Valid() && lTop == old(lTop) && fli == old(fli) && trail == old(trail) && tmpTop == old(tmpTop)
      ensures gTop == old(gTop) + 1 + arity && c == Compound(old(gTop))
      ensures HasFunctor(mem[..], c, fname, arity) && StructOk(mem[..], c)
      ensures forall k :: old(gTop) < k < gTop ==> mem[k].Var?
      ensures forall k :: 0 <= k < mem.Length && !(old(gTop) <= k < gTop) ==> mem[k] == old(mem[k])
      ensures forall r :: 0 <= r < mem.Length && (r < old(gTop) || lBase <= r) ==>
                Deref(mem[..], r) == Deref(old(mem[..]), r) && LinkValI(mem[..], r) == LinkValI(old(mem[..]), r)
    {
      var g := gTop;
      StoreFresh(g, Functor(fname, arity), g, g);
      var i := 0;
      while i < arity
        modifies mem
        invariant 0 <= i <= arity
        invariant RefsOk(mem[..], g, g + 1 + i, lBase) && LocalNoAttVar(mem[..], lBase)
        invariant mem[g] == Functor(fname, arity)
        invariant forall k :: g < k < g + 1 + i ==> mem[k].Var?
        invariant forall k :: 0 <= k < mem.Length && !(g <= k < g + 1 + i) ==> mem[k] == old(mem[k])
        invariant forall r :: 0 <= r < mem.Length && (r < g || lBase <= r) ==>
                    Deref(mem[..], r) == Deref(old(mem[..]), r) && LinkValI(mem[..], r) == LinkValI(old(mem[..]), r)
      {
        StoreFresh(g + 1 + i, Var, g, g + 1 + i);
        i := i + 1;
      }
      gTop := g + 1 + arity;
      RefsOkWeaken(mem[..], g, gTop, gTop, gTop, lBase);
      c := Compound(g);
    }

    /**
     * PL_put_functor(): the handle gets the name atom for arity 0, else a
     * new structure f(_,...,_); false when the global stack has no room.
     */
    method PutFunctor(h: nat, fname: string, arity: nat) returns (ok: bool)
      requires Valid() && UserTermT(h)
      modifies this, mem
      ensures Valid() && lTop == old(lTop) && fli == old(fli) && trail == old(trail) && tmpTop == old(tmpTop)
      ensures ok <==> arity == 0 || old(HasGlobalSpace(1 + arity))
      ensures !ok ==> unchanged(this, mem)
      ensures ok && arity == 0 ==> mem[..] == old(mem[..])[Addr(h) := Atom(fname, true)] && gTop == old(gTop)
      ensures ok && arity > 0 ==>
                mem[Addr(h)] == Compound(old(gTop)) && gTop == old(gTop) + 1 + arity
                && HasFunctor(mem[..], mem[Addr(h)], fname, arity)
                && forall k :: old(gTop) < k < gTop ==> mem[k].Var?
    {
      UserTermTIsTermT(h);
      if arity == 0 {
        SetHandle(lBase + h, Atom(fname, true));
        return true;
      }
      if !HasGlobalSpace(1 + arity) {
        return false;
      }
      var c := AllocStruct(fname, arity);
      SetHandle(lBase + h, c);
      return true;
    }

    /** PL_put_list(): the handle gets a new list cell [_|_]; false when the global stack has no room. */
    method PutList(l: nat) returns (ok: bool)
      requires Valid() && UserTermT(l)
      modifies this, mem
      ensures Valid() && lTop == old(lTop) && fli == old(fli) && trail == old(trail) && tmpTop == old(tmpTop)
      ensures ok <==> old(HasGlobalSpace(3))
      ensures !ok ==> unchanged(this, mem)
      ensures ok ==> mem[Addr(l)] == Compound(old(gTop)) && gTop == old(gTop) + 3
                     && StructOk(mem[..], mem[Addr(l)]) && TermTypeOf(mem[..], mem[Addr(l)]) == PlListPair
                     && mem[old(gTop) + 1].Var? && mem[old(gTop) + 2].Var?
    {
      UserTermTIsTermT(l);
      if !HasGlobalSpace(3) {
        return false;
      }
      var c := AllocStruct("[|]", 2);
      SetHandle(lBase + l, c);
      return true;
    }

    /** Bind the unbound cell q, which the cell p dereferences to, to a new structure f(_,...,_). */
    method BindNewStruct(p: nat, q: nat, fname: string, arity: nat)
      requires Valid() && p < mem.Length && (p < gTop || lBase <= p) && q == Deref(mem[..], p)
      requires CanBind(mem[q]) && HasGlobalSpace(1 + arity)
      modifies this, mem
      ensures Valid() && lTop == old(lTop) && fli == old(fli) && tmpTop == old(tmpTop)
      ensures gTop == old(gTop) + 1 + arity && trail == old(trail) + [q]
      ensures LinkValI(mem[..], p) == Compound(old(gTop))
      ensures HasFunctor(mem[..], Compound(old(gTop)), fname, arity)
      ensures forall k :: old(gTop) < k < gTop ==> mem[k].Var?
    {
      DerefFacts(mem[..], gTop, gTop, lBase, p);
      var c := AllocStruct(fname, arity);
      assert Deref(mem[..], p) == q && mem[q] == old(mem[q]);
      BindConst(q, c);
    }

    /**
     * PL_unify_compound(): an unbound term is bound (and trailed) to a new
     * structure f(_,...,_), even for arity 0; a bound one unifies when it
     * is a compound with that functor.
     */
    method UnifyCompound(h: nat, fname: string, arity: nat) returns (r: bool)
      requires Valid() && TermT(h)
      modifies this, mem
      ensures Valid() && lTop == old(lTop) && fli == old(fli) && tmpTop == old(tmpTop)
      ensures var q := Deref(old(mem[..]), Addr(h));
              (r <==> (CanBind(old(mem[q])) && old(HasGlobalSpace(1 + arity)))
                      || HasFunctor(old(mem[..]), old(mem[q]), fname, arity))
              && (!r || !CanBind(old(mem[q])) ==> unchanged(this, mem))
              && (r && CanBind(old(mem[q])) ==>
                    gTop == old(gTop) + 1 + arity && trail == old(trail) + [q]
                    && LinkValI(mem[..], Addr(h)) == Compound(old(gTop))
                    && forall k :: old(gTop) < k < gTop ==> mem[k].Var?)
      ensures r ==> HasFunctor(mem[..], LinkValI(mem[..], Addr(h)), fname, arity)
    {
      TermTIsLocal(h);
      var q := DerefCell(lBase + h, gTop, gTop);
      DerefFacts(mem[..], gTop, gTop, lBase, lBase + h);
      if CanBind(mem[q]) {
        if !HasGlobalSpace(1 + arity) {
          return false;
        }
        BindNewStruct(lBase + h, q, fname, arity);
        return true;
      }
      r := HasFunctor(mem[..], mem[q], fname, arity);
    }

    /**
     * PL_unify_functor(): as PL_unify_compound(), except that arity 0 means
     * the name atom: it is bound without taking global space, and a bound
     * term unifies only when it is that atom.
     */
    method UnifyFunctor(h: nat, fname: string, arity: nat) returns (r: bool)
      requires Valid() && TermT(h)
      modifies this, mem
      ensures Valid() && lTop == old(lTop) && fli == old(fli) && tmpTop == old(tmpTop)
      ensures var q := Deref(old(mem[..]), Addr(h));
              var w := old(mem[q]);
              (r <==> (CanBind(w) && (arity == 0 || old(HasGlobalSpace(1 + arity))))
                      || (arity > 0 && HasFunctor(old(mem[..]), w, fname, arity))
                      || (arity == 0 && w == Atom(fname, true)))
              && (!r || !CanBind(w) ==> unchanged(this, mem))
              && (r && CanBind(w) ==> trail == old(trail) + [q])
      ensures r && arity == 0 ==> LinkValI(mem[..], Addr(h)) == Atom(fname, true) && gTop == old(gTop)
      ensures r && arity > 0 ==> HasFunctor(mem[..], LinkValI(mem[..], Addr(h)), fname, arity)
    {
      TermTIsLocal(h);
      var q := DerefCell(lBase + h, gTop, gTop);
      DerefFacts(mem[..], gTop, gTop, lBase, lBase + h);
      if CanBind(mem[q]) {
        if arity > 0 {
          if !HasGlobalSpace(1 + arity) {
            return false;
          }
          BindNewStruct(lBase + h, q, fname, arity);
          return true;
        }
        BindConst(q, Atom(fname, true));
        return true;
      }
      if arity > 0 {
        r := HasFunctor(mem[..], mem[q], fname, arity);
      } else {
        r := mem[q] == Atom(fname, true);
      }
    }

    /*****************************************************************
     * Arguments of a compound and PL_unify_list() (src/pl-fli.c:2330-2345, 3602-3672)
     *****************************************************************/

    /**
     * The compound word w has its functor cell and its arguments below
     * gTop.  Every compound a live cell reaches is like this; the model
     * asks it of the word an operation walks into.
     */
    ghost predicate StructLive(w: Cell)
      reads this, mem
    {
      w.Compound? ==> w.addr < gTop <= mem.Length && mem[w.addr].Functor? && w.addr + mem[w.addr].arity < gTop
    }

    /**
     * PL_get_arg_sz(): for 0 < index <= arity of the compound t denotes, a
     * comes to denote argument index (linked, so an unbound argument is
     * shared, not copied).  Any other index or term fails and leaves a as it was.
     */
    method GetArg(index: nat, t: nat, a: nat) returns (r: bool)
      requires Valid() && TermT(t) && UserTermT(a) && StructLive(LinkValI(mem[..], Addr(t)))
      modifies mem
      ensures Valid()
      ensures var c := ArgCell(old(mem[..]), LinkValI(old(mem[..]), Addr(t)), index);
              (r <==> c.Some?)
              && (c.None? ==> mem[..] == old(mem[..]))
              && (c.Some? ==> mem[..] == old(mem[..])[Addr(a) := LinkValI(old(mem[..]), c.value)]
                              && SameTerm(mem[..], Addr(a), c.value))
    {
      TermTIsLocal(t);
      UserTermTIsTermT(a);
      var q := DerefCell(lBase + t, gTop, gTop);
      var w := mem[q];
      if w.Compound? && index > 0 {
        var arity := mem[w.addr].arity;
        if index - 1 < arity {
          SetHandleLink(lBase + a, w.addr + index);
          return true;
        }
      }
      return false;
    }

    /**
     * PL_unify_arg_sz(): the same 1-based index check, then unify_ptrs()
     * on argument index and a.  Unification is not part of this model:
     * `unified` stands for its verdict, and what it binds is left out.
     */
    method UnifyArg(index: nat, t: nat, a: nat, unified: bool) returns (r: bool)
      requires Valid() && TermT(t) && TermT(a) && StructLive(LinkValI(mem[..], Addr(t)))
      ensures r <==> ArgCell(mem[..], LinkValI(mem[..], Addr(t)), index).Some? && unified
    {
      TermTIsLocal(t);
      var q := DerefCell(lBase + t, gTop, gTop);
      var w := mem[q];
      if w.Compound? && index > 0 && index <= mem[w.addr].arity {
        return unified;
      }
      return false;
    }

    /**
     * allocGlobal(3) filled with [_|_], then setHandle() of its two
     * variables into the local cells xh and xt.  A local cell p other than
     * those two still dereferences where it did.
     */
    method PushListCell(xh: nat, xt: nat)
      requires Valid() && HasGlobalSpace(3) && lBase < xh < mem.Length && lBase < xt < mem.Length
      modifies this, mem
      ensures Valid() && lTop == old(lTop) && fli == old(fli) && tmpTop == old(tmpTop) && trail == old(trail)
      ensures gTop == old(gTop) + 3
      ensures mem[..] == old(mem[..])[old(gTop) := FUNCTOR_DOT2][old(gTop) + 1 := Var][old(gTop) + 2 := Var]
                                     [xh := Ref(old(gTop) + 1)][xt := Ref(old(gTop) + 2)]
    {
      var g := gTop;
      ghost var m0 := mem[..];
      var c := AllocStruct("[|]", 2);
      assert mem[..] == m0[g := FUNCTOR_DOT2][g + 1 := Var][g + 2 := Var];
      Store(xh, Ref(g + 1), gTop, gTop);
      Store(xt, Ref(g + 2), gTop, gTop);
    }

    /**
     * The canBind() branch of PL_unify_list(): a new list cell, its two
     * variables into xh and xt, then the unbound cell q that p
     * dereferences to bound (and trailed) to the new cell.
     */
    method BindNewList(p: nat, q: nat, xh: nat, xt: nat)
      requires Valid() && lBase < p < lTop && q == Deref(mem[..], p) && CanBind(mem[q]) && HasGlobalSpace(3)
      requires lBase < xh < mem.Length && lBase < xt < mem.Length
      modifies this, mem
      ensures Valid() && lTop == old(lTop) && fli == old(fli) && tmpTop == old(tmpTop)
      ensures gTop == old(gTop) + 3 && trail == old(trail) + [q]
      ensures mem[..] == NewListM(old(mem[..]), old(gTop), xh, xt, q)
    {
      var g := gTop;
      DerefFacts(mem[..], g, g, lBase, p);
      PushListCell(xh, xt);
      Store(q, Compound(g), gTop, gTop);
      trail := trail + [q];
    }

    /**
     * The isList() branch of PL_unify_list(): xh and xt come to denote the
     * head and the tail of the list cell at a; a local cell p other than
     * those two keeps its term.
     */
    method LinkListArgs(a: nat, xh: nat, xt: nat)
      requires Valid() && a + 2 < gTop && lBase <= xh < mem.Length && lBase <= xt < mem.Length
      modifies mem
      ensures Valid()
      ensures mem[..] == ListArgsM(old(mem[..]), a, xh, xt)
    {
      ghost var m0 := mem[..];
      SetHandleLink(xh, a + 1);
      ghost var m1 := mem[..];
      SetHandleLink(xt, a + 2);
      assert LinkValI(m1, a + 2) == LinkValI(m0, a + 2);
    }

    /**
     * PL_unify_list(): an unbound l is bound (and trailed) to a new list
     * cell whose two fresh variables h and t receive; a list cell l
     * already denotes gives h its head and t its tail; anything else fails.
     * Unless the handles overlap, l then denotes [H|T] with H in h and T in t.
     */
    method UnifyList(l: nat, h: nat, t: nat) returns (r: bool)
      requires Valid() && TermT(l) && UserTermT(h) && UserTermT(t) && StructLive(LinkValI(mem[..], Addr(l)))
      modifies this, mem
      ensures Valid() && lTop == old(lTop) && fli == old(fli) && tmpTop == old(tmpTop)
      ensures var q := Deref(old(mem[..]), Addr(l));
              var w := old(mem[q]);
              (r <==> (CanBind(w) && old(HasGlobalSpace(3))) || HasFunctor(old(mem[..]), w, "[|]", 2))
              && (!r ==> unchanged(this, mem))
              && (r && CanBind(w) ==>
                    gTop == old(gTop) + 3 && trail == old(trail) + [q]
                    && mem[..] == NewListM(old(mem[..]), old(gTop), Addr(h), Addr(t), q))
              && (r && !CanBind(w) ==>
                    gTop == old(gTop) && trail == old(trail) && mem[..] == ListArgsM(old(mem[..]), w.addr, Addr(h), Addr(t)))
    {
      TermTIsLocal(l);
      UserTermTIsTermT(h);
      UserTermTIsTermT(t);
      r := UnifyListAt(lBase + l, lBase + h, lBase + t);
    }

    /** PL_unify_list() on the cells of the three handles. */
    method UnifyListAt(p: nat, xh: nat, xt: nat) returns (r: bool)
      requires Valid() && lBase < p < lTop && lBase < xh < lTop && lBase < xt < lTop && StructLive(LinkValI(mem[..], p))
      modifies this, mem
      ensures Valid() && lTop == old(lTop) && fli == old(fli) && tmpTop == old(tmpTop)
      ensures var q := Deref(old(mem[..]), p);
              var w := old(mem[q]);
              (r <==> (CanBind(w) && old(HasGlobalSpace(3))) || HasFunctor(old(mem[..]), w, "[|]", 2))
              && (!r ==> unchanged(this, mem))
              && (r && CanBind(w) ==>
                    gTop == old(gTop) + 3 && trail == old(trail) + [q]
                    && mem[..] == NewListM(old(mem[..]), old(gTop), xh, xt, q))
              && (r && !CanBind(w) ==>
                    gTop == old(gTop) && trail == old(trail) && mem[..] == ListArgsM(old(mem[..]), w.addr, xh, xt))
    {
      var q := DerefCell(p, gTop, gTop);
      if CanBind(mem[q]) {
        if !HasGlobalSpace(3) {            // ensureGlobalSpace() failed
          return false;
        }
        BindNewList(p, q, xh, xt);
        return true;
      } else if HasFunctor(mem[..], mem[q], "[|]", 2) {
        var w := mem[q];
        LinkListArgs(w.addr, xh, xt);
        return true;
      }
      return false;
    }

    /*****************************************************************
     * Constructing terms from existing handles (src/pl-fli.c:1443-1617)
     *****************************************************************/

    /**
     * The bindConsVal() loop of PL_cons_functor_v(): argument k+1 of the
     * structure at g is filled from the local cell args[k].
     */
    method FillArgs(g: nat, args: seq<nat>)
      requires g + 1 + |args| <= lBase <= mem.Length
      requires forall k :: 0 <= k < |args| ==> lBase <= args[k] < mem.Length
      requires RefsOk(mem[..], g, g + 1, lBase) && LocalNoAttVar(mem[..], lBase)
      modifies mem
      ensures mem[..] == FillM(old(mem[..]), g, false, args, |args|)
    {
      var i := 0;
      while i < |args|
        invariant i <= |args| && mem[..] == FillM(old(mem[..]), g, false, args, i)
      {
        FillRefs(old(mem[..]), g, false, lBase, args, i);
        BindConsValAt(g + 1 + i, args[i], g);
        i := i + 1;
      }
    }

    /**
     * The loop of PL_cons_list_v(): list cell k at g+3k gets '[|]', its
     * head bound to the local cell args[k], and its tail: the next cell,
     * or [] for the last.
     */
    method FillListCells(g: nat, args: seq<nat>)
      requires g + 3 * |args| <= lBase <= mem.Length
      requires forall k :: 0 <= k < |args| ==> lBase <= args[k] < mem.Length
      requires RefsOk(mem[..], g, g, lBase) && LocalNoAttVar(mem[..], lBase)
      modifies mem
      ensures mem[..] == FillM(old(mem[..]), g, true, args, |args|)
    {
      ghost var m0 := mem[..];
      var i := 0;
      while i < |args|
        invariant i <= |args| && mem[..] == FillM(m0, g, true, args, i)
      {
        ListCellFrom(g, args, i, m0);
        i := i + 1;
      }
    }

    /** Round i of that loop, on the cells as the earlier rounds left them. */
    method ListCellFrom(g: nat, args: seq<nat>, i: nat, ghost m0: seq<Cell>)
      requires i < |args| && g + 3 * |args| <= lBase <= mem.Length == |m0|
      requires forall k :: 0 <= k < |args| ==> lBase <= args[k] < mem.Length
      requires RefsOk(m0, g, g, lBase) && LocalNoAttVar(m0, lBase)
      requires mem[..] == FillM(m0, g, true, args, i)
      modifies mem
      ensures mem[..] == FillM(m0, g, true, args, i + 1)
    {
      FillRefs(m0, g, true, lBase, args, i);
      ListCellAt(g, args, i);
    }

    /** FillListCells() with what its cells then satisfy. */
    method FillListCellsOk(g: nat, args: seq<nat>)
      requires g + 3 * |args| <= lBase <= mem.Length
      requires forall k :: 0 <= k < |args| ==> lBase <= args[k] < mem.Length
      requires RefsOk(mem[..], g, g, lBase) && LocalNoAttVar(mem[..], lBase)
      modifies mem
      ensures RefsOk(mem[..], g, g + 3 * |args|, lBase) && LocalNoAttVar(mem[..], lBase)
      ensures ListLayout(mem[..], g, |args|) && ConsArgsLinked(mem[..], g, true, args, |args|)
      ensures forall k :: 0 <= k < |args| && !old(mem[args[k]]).Var? ==>
                LinkValI(mem[..], ArgSlot(g, true, k)) == old(LinkValI(mem[..], args[k]))
    {
      ghost var m0 := mem[..];
      FillListCells(g, args);
      ConsListFacts(m0, g, lBase, args);
    }

    /** One round of that loop: '[|]', the head from args[i], then the tail. */
    method ListCellAt(g: nat, args: seq<nat>, i: nat)
      requires i < |args| && g + 3 * |args| <= lBase <= mem.Length
      requires forall k :: 0 <= k < |args| ==> lBase <= args[k] < mem.Length
      requires RefsOk(mem[..], g, ConsCell(g, i), lBase) && LocalNoAttVar(mem[..], lBase)
      modifies mem
      ensures mem[..] == ListRound(old(mem[..]), g, args, i)
    {
      var p := ConsCell(g, i);
      mem[p] := FUNCTOR_DOT2;
      assert mem[..] == ListRoundA(old(mem[..]), g, i);
      ListRoundARefs(old(mem[..]), g, lBase, i);
      BindConsValAt(p + 1, args[i], g);
      mem[p + 2] := if i + 1 < |args| then Compound(p + 3) else NIL;
    }

    /** gTop moves past 1+n cells and the first gets the functor name/n; the others are left to the caller. */
    method PushFunctorCell(fname: string, n: nat)
      requires Valid() && HasGlobalSpace(1 + n)
      modifies this, mem
      ensures Layout() && lTop == old(lTop) && fli == old(fli) && trail == old(trail) && tmpTop == old(tmpTop)
      ensures gTop == old(gTop) + 1 + n && mem[..] == old(mem[..])[old(gTop) := Functor(fname, n)]
      ensures RefsOk(mem[..], old(gTop), old(gTop) + 1, lBase) && LocalNoAttVar(mem[..], lBase)
    {
      var g := gTop;
      gTop := g + 1 + n;
      Store(g, Functor(fname, n), g, g);
      RefsOkWeaken(mem[..], g, g, g, g + 1, lBase);
    }

    /**
     * The construction shared by PL_cons_functor_v() and PL_cons_list():
     * gTop moves past 1+|args| cells, the first holds the functor, and
     * argument k is linked by bindConsVal() to the term in the local cell
     * args[k].
     */
    method ConsStruct(fname: string, args: seq<nat>) returns (c: Cell)
      requires Valid() && HasGlobalSpace(1 + |args|) && |args| > 0
      requires forall k :: 0 <= k < |args| ==> lBase <= args[k] < mem.Length
      modifies this, mem
      ensures Valid() && lTop == old(lTop) && fli == old(fli) && trail == old(trail) && tmpTop == old(tmpTop)
      ensures gTop == old(gTop) + 1 + |args| && c == Compound(old(gTop))
      ensures HasFunctor(mem[..], c, fname, |args|) && StructOk(mem[..], c)
      ensures ConsArgsLinked(mem[..], old(gTop), false, args, |args|)
      ensures forall k :: 0 <= k < |args| && !old(mem[args[k]]).Var? ==>
                LinkValI(mem[..], ArgSlot(old(gTop), false, k)) == old(LinkValI(mem[..], args[k]))
      ensures forall x :: 0 <= x < mem.Length && !(old(gTop) <= x < gTop) && !(old(mem[x]).Var? && x in args) ==>
                mem[x] == old(mem[x])
    {
      var g := gTop;
      var n := |args|;
      ghost var m0 := mem[..];
      PushFunctorCell(fname, n);
      ghost var m1 := mem[..];
      FillArgs(g, args);
      ghost var m := mem[..];
      ConsStructFacts(m0, m1, g, lBase, args);
      RefsOkWeaken(m, g, gTop, gTop, gTop, lBase);
      c := Compound(g);
    }

    /** The local cell of the handle a0+k, the k-th of a vector of handles starting at a0. */
    function HandleCell(a0: nat, k: nat): nat
    {
      lBase + a0 + k
    }

    /**
     * PL_cons_functor_v() on cells, for arity > 0: x gets a new structure
     * whose k-th argument is linked to the term in the local cell args[k].
     * A handle that held a value still holds it, and so does the argument.
     */
    method ConsStructAt(x: nat, fname: string, args: seq<nat>)
      requires Valid() && HasGlobalSpace(1 + |args|) && |args| > 0 && lBase <= x < mem.Length
      requires forall k :: 0 <= k < |args| ==> lBase <= args[k] < mem.Length
      modifies this, mem
      ensures Valid() && lTop == old(lTop) && fli == old(fli) && trail == old(trail) && tmpTop == old(tmpTop)
      ensures gTop == old(gTop) + 1 + |args| && mem[x] == Compound(old(gTop))
      ensures HasFunctor(mem[..], mem[x], fname, |args|)
      ensures forall k :: 0 <= k < |args| && args[k] != x ==>
                SameTerm(mem[..], old(gTop) + 1 + k, args[k])
                && (!old(mem[args[k]]).Var? ==> LinkValI(mem[..], old(gTop) + 1 + k) == old(LinkValI(mem[..], args[k])))
    {
      ghost var m0 := mem[..];
      var c := ConsStruct(fname, args);
      ConsArgsStoreHandle(m0, mem[..], gTop, c.addr, false, lBase, x, c, args);
      SetHandle(x, c);
    }

    /**
     * PL_cons_functor_v(): h gets the name atom for arity 0, else a new
     * structure whose k-th argument is linked to the term of handle a0+k;
     * false when the global stack has no room.
     */
    method ConsFunctorV(h: nat, fname: string, arity: nat, a0: nat) returns (ok: bool)
      requires Valid() && TermT(h) && (arity > 0 ==> HandleCell(a0, arity) <= lTop)
      modifies this, mem
      ensures Valid() && lTop == old(lTop) && fli == old(fli) && trail == old(trail) && tmpTop == old(tmpTop)
      ensures ok <==> arity == 0 || old(HasGlobalSpace(1 + arity))
      ensures !ok ==> unchanged(this, mem)
      ensures ok && arity == 0 ==> mem[..] == old(mem[..])[Addr(h) := Atom(fname, true)] && gTop == old(gTop)
      ensures ok && arity > 0 ==>
                gTop == old(gTop) + 1 + arity && mem[Addr(h)] == Compound(old(gTop))
                && HasFunctor(mem[..], mem[Addr(h)], fname, arity)
      ensures ok && arity > 0 ==>
                forall k :: 0 <= k < arity && HandleCell(a0, k) != Addr(h) ==>
                  SameTerm(mem[..], old(gTop) + 1 + k, HandleCell(a0, k))
                  && (!old(mem[HandleCell(a0, k)]).Var? ==>
                        LinkValI(mem[..], old(gTop) + 1 + k) == old(LinkValI(mem[..], HandleCell(a0, k))))
    {
      TermTIsLocal(h);
      if arity == 0 {
        SetHandle(lBase + h, Atom(fname, true));
        return true;
      }
      if !HasGlobalSpace(1 + arity) {
        return false;
      }
      var base := lBase + a0;
      var args := seq(arity, k requires 0 <= k => base + k);
      ghost var m0 := mem[..];
      ConsStructAt(lBase + h, fname, args);
      forall k | 0 <= k < arity && HandleCell(a0, k) != Addr(h)
        ensures SameTerm(mem[..], old(gTop) + 1 + k, HandleCell(a0, k))
        ensures !m0[HandleCell(a0, k)].Var? ==> LinkValI(mem[..], old(gTop) + 1 + k) == LinkValI(m0, HandleCell(a0, k))
      {
        assert args[k] == HandleCell(a0, k);
      }
      return true;
    }

    /**
     * PL_cons_list() on cells: x gets [H|T] with H and T linked to the
     * terms in hd and tl; false when the global stack has no room.
     */
    method ConsListAt(x: nat, hd: nat, tl: nat) returns (ok: bool)
      requires Valid()
      requires lBase <= x < mem.Length && lBase <= hd < mem.Length && lBase <= tl < mem.Length
      modifies this, mem
      ensures Valid() && lTop == old(lTop) && fli == old(fli) && trail == old(trail) && tmpTop == old(tmpTop)
      ensures ok <==> old(HasGlobalSpace(3))
      ensures !ok ==> unchanged(this, mem)
      ensures ok ==> gTop == old(gTop) + 3 && mem[x] == Compound(old(gTop))
                     && StructOk(mem[..], mem[x]) && TermTypeOf(mem[..], mem[x]) == PlListPair
      ensures ok && hd != x ==> SameTerm(mem[..], old(gTop) + 1, hd)
      ensures ok && tl != x ==> SameTerm(mem[..], old(gTop) + 2, tl)
    {
      if !HasGlobalSpace(3) {
        return false;
      }
      var args := [hd, tl];
      ghost var g := gTop;
      ConsStructAt(x, "[|]", args);
      assert args[0] == hd && args[1] == tl;
      assert g + 1 + 0 == g + 1 && g + 1 + 1 == g + 2;
      return true;
    }

    /**
     * PL_cons_list(): l gets a new list cell whose head and tail are linked
     * to the terms of the handles head and tail; false when the global
     * stack has no room.
     */
    method ConsList(l: nat, head: nat, tail: nat) returns (ok: bool)
      requires Valid() && TermT(l) && TermT(head) && TermT(tail)
      modifies this, mem
      ensures Valid() && lTop == old(lTop) && fli == old(fli) && trail == old(trail) && tmpTop == old(tmpTop)
      ensures ok <==> old(HasGlobalSpace(3))
      ensures !ok ==> unchanged(this, mem)
      ensures ok ==> gTop == old(gTop) + 3 && mem[Addr(l)] == Compound(old(gTop))
                     && StructOk(mem[..], mem[Addr(l)]) && TermTypeOf(mem[..], mem[Addr(l)]) == PlListPair
      ensures ok && Addr(head) != Addr(l) ==> SameTerm(mem[..], old(gTop) + 1, Addr(head))
      ensures ok && Addr(tail) != Addr(l) ==> SameTerm(mem[..], old(gTop) + 2, Addr(tail))
    {
      TermTsAreLocal(l, head, tail);
      ok := ConsListAt(Addr(l), Addr(head), Addr(tail));
    }

    /*****************************************************************
     * Lists from a vector of handles and from bytes (src/pl-fli.c:1584-1617, 2858-2917)
     *****************************************************************/

    /**
     * The cells PL_cons_list_v() writes: n list cells at gTop, head k
     * linked to the local cell args[k]; gTop moves past them.
     */
    method ConsListCells(args: seq<nat>) returns (c: Cell)
      requires Valid() && |args| > 0 && HasGlobalSpace(3 * |args|)
      requires forall k :: 0 <= k < |args| ==> lBase <= args[k] < mem.Length
      modifies this, mem
      ensures Valid() && lTop == old(lTop) && fli == old(fli) && trail == old(trail) && tmpTop == old(tmpTop)
      ensures gTop == old(gTop) + 3 * |args| && c == Compound(old(gTop))
      ensures ListLayout(mem[..], old(gTop), |args|)
      ensures ConsArgsLinked(mem[..], old(gTop), true, args, |args|)
      ensures forall k :: 0 <= k < |args| && !old(mem[args[k]]).Var? ==>
                LinkValI(mem[..], ArgSlot(old(gTop), true, k)) == old(LinkValI(mem[..], args[k]))
    {
      var g := gTop;
      FillListCellsOk(g, args);
      CommitGlobal(3 * |args|);
      c := Compound(g);
    }

    /** gTop moves past n cells that the caller has filled so that every reference in them is legal. */
    method CommitGlobal(n: nat)
      requires Layout() && gTop + n <= lBase
      requires RefsOk(mem[..], gTop, gTop + n, lBase) && LocalNoAttVar(mem[..], lBase)
      modifies this
      ensures Valid() && gTop == old(gTop) + n
      ensures lTop == old(lTop) && fli == old(fli) && trail == old(trail) && tmpTop == old(tmpTop)
    {
      RefsOkWeaken(mem[..], gTop, gTop + n, gTop + n, gTop + n, lBase);
      gTop := gTop + n;
    }

    /** PL_cons_list_v() on cells, for count > 0: x gets the list whose k-th element is linked to args[k]. */
    method ConsListVAt(x: nat, args: seq<nat>)
      requires Valid() && |args| > 0 && HasGlobalSpace(3 * |args|) && lBase <= x < mem.Length
      requires forall k :: 0 <= k < |args| ==> lBase <= args[k] < mem.Length
      modifies this, mem
      ensures Valid() && lTop == old(lTop) && fli == old(fli) && trail == old(trail) && tmpTop == old(tmpTop)
      ensures gTop == old(gTop) + 3 * |args| && mem[x] == Compound(old(gTop))
      ensures ListCells(mem[..], mem[x], |args|)
      ensures forall k :: 0 <= k < |args| && args[k] != x ==>
                SameTerm(mem[..], ConsCell(old(gTop), k) + 1, args[k])
                && (!old(mem[args[k]]).Var? ==>
                      LinkValI(mem[..], ConsCell(old(gTop), k) + 1) == old(LinkValI(mem[..], args[k])))
    {
      ghost var m0 := mem[..];
      var c := ConsListCells(args);
      ghost var m1 := mem[..];
      ConsArgsStoreHandle(m0, m1, gTop, c.addr, true, lBase, x, c, args);
      SetHandle(x, c);
      ListPrefixKeep(m1, mem[..], c.addr, |args|, |args|);
      ListLayoutIsList(mem[..], c.addr, |args|);
    }

    /**
     * PL_cons_list_v(): l gets the list of the terms of the count handles
     * from e0, [] when count is 0; false when the global stack has no room.
     */
    method ConsListV(l: nat, count: nat, e0: nat) returns (ok: bool)
      requires Valid() && TermT(l) && HandleCell(e0, count) <= lTop
      modifies this, mem
      ensures Valid() && lTop == old(lTop) && fli == old(fli) && trail == old(trail) && tmpTop == old(tmpTop)
      ensures ok <==> count == 0 || old(HasGlobalSpace(3 * count))
      ensures !ok ==> unchanged(this, mem)
      ensures ok && count == 0 ==> mem[..] == old(mem[..])[Addr(l) := NIL] && gTop == old(gTop)
      ensures ok && count > 0 ==>
                gTop == old(gTop) + 3 * count && mem[Addr(l)] == Compound(old(gTop))
                && ListCells(mem[..], mem[Addr(l)], count)
      ensures ok && count > 0 ==>
                forall k :: 0 <= k < count && HandleCell(e0, k) != Addr(l) ==>
                  SameTerm(mem[..], ConsCell(old(gTop), k) + 1, HandleCell(e0, k))
                  && (!old(mem[HandleCell(e0, k)]).Var? ==>
                        LinkValI(mem[..], ConsCell(old(gTop), k) + 1) == old(LinkValI(mem[..], HandleCell(e0, k))))
    {
      TermTIsLocal(l);
      if count == 0 {
        SetHandle(lBase + l, NIL);
        return true;
      }
      if !HasGlobalSpace(3 * count) {
        return false;
      }
      var base := lBase + e0;
      var args := seq(count, k requires 0 <= k => base + k);
      ghost var m0 := mem[..];
      ConsListVAt(lBase + l, args);
      forall k | 0 <= k < count && HandleCell(e0, k) != Addr(l)
        ensures SameTerm(mem[..], ConsCell(old(gTop), k) + 1, HandleCell(e0, k))
        ensures !m0[HandleCell(e0, k)].Var? ==>
                  LinkValI(mem[..], ConsCell(old(gTop), k) + 1) == LinkValI(m0, HandleCell(e0, k))
      {
        assert args[k] == HandleCell(e0, k);
      }
      return true;
    }

    /**
     * The loop of PL_put_list_ncodes()/PL_put_list_nchars(): cell k at g+3k
     * gets '[|]', heads[k] and a pointer to the next cell; afterwards the
     * last tail is overwritten with [].
     */
    method FillByteList(g: nat, heads: seq<Cell>)
      requires |heads| > 0 && g + 3 * |heads| <= lBase <= mem.Length
      requires forall k :: 0 <= k < |heads| ==> !heads[k].Ref? && !heads[k].Var? && !heads[k].AttVar?
      requires RefsOk(mem[..], g, g, lBase) && LocalNoAttVar(mem[..], lBase)
      modifies mem
      ensures RefsOk(mem[..], g, g, lBase) && LocalNoAttVar(mem[..], lBase)
      ensures ListLayout(mem[..], g, |heads|) && HeadsAt(mem[..], g, heads, |heads|)
      ensures forall y :: 0 <= y < mem.Length && !(g <= y < g + 3 * |heads|) ==> mem[y] == old(mem[y])
    {
      var n := |heads|;
      var i := 0;
      while i < n
        invariant i <= n
        invariant RefsOk(mem[..], g, g, lBase) && LocalNoAttVar(mem[..], lBase)
        invariant ListPrefix(mem[..], g, n + 1, i) && HeadsAt(mem[..], g, heads, i)
        invariant forall y :: 0 <= y < mem.Length && !(g <= y < ConsCell(g, i)) ==> mem[y] == old(mem[y])
      {
        var p := ConsCell(g, i);
        ghost var m := mem[..];
        ByteCellAt(p, heads[i], g);
        ListPrefixKeep(m, mem[..], g, n + 1, i);
        HeadsAtKeep(m, mem[..], g, heads, i);
        i := i + 1;
      }
      ByteListClose(mem[..], g, heads);
      Store(ConsCell(g, n - 1) + 2, NIL, g, g);
    }

    /** One round of that loop: '[|]', the head h and a pointer to the next cell, into p, p+1, p+2. */
    method ByteCellAt(p: nat, h: Cell, ghost g: nat)
      requires g <= p && p + 3 <= lBase <= mem.Length && !h.Ref? && !h.Var? && !h.AttVar?
      requires RefsOk(mem[..], g, g, lBase) && LocalNoAttVar(mem[..], lBase)
      modifies mem
      ensures RefsOk(mem[..], g, g, lBase) && LocalNoAttVar(mem[..], lBase)
      ensures mem[..] == old(mem[..])[p := FUNCTOR_DOT2][p + 1 := h][p + 2 := Compound(p + 3)]
    {
      Store(p, FUNCTOR_DOT2, g, g);
      Store(p + 1, h, g, g);
      Store(p + 2, Compound(p + 3), g, g);
    }

    /** The common part of PL_put_list_ncodes() and PL_put_list_nchars() for a non-empty list. */
    method PutByteList(x: nat, heads: seq<Cell>)
      requires Valid() && lBase <= x < mem.Length && |heads| > 0 && HasGlobalSpace(3 * |heads|)
      requires forall k :: 0 <= k < |heads| ==> !heads[k].Ref? && !heads[k].Var? && !heads[k].AttVar?
      modifies this, mem
      ensures Valid() && lTop == old(lTop) && fli == old(fli) && trail == old(trail) && tmpTop == old(tmpTop)
      ensures gTop == old(gTop) + 3 * |heads| && mem[x] == Compound(old(gTop))
      ensures ListCells(mem[..], mem[x], |heads|) && ListHeads(mem[..], mem[x], |heads|) == heads
      ensures forall y :: 0 <= y < mem.Length && y != x && !(old(gTop) <= y < gTop) ==> mem[y] == old(mem[y])
    {
      var g := gTop;
      gTop := g + 3 * |heads|;
      Store(x, Compound(g), g, g);
      FillByteList(g, heads);
      RefsOkWeaken(mem[..], g, g, gTop, gTop, lBase);
      ListLayoutHeadsFrom(mem[..], g, heads, 0);
      assert heads[0..] == heads;
    }

    /**
     * PL_put_list_ncodes(): t gets the list of the codes c & 0xff of the
     * chars, [] for none; false when the global stack has no room.
     */
    method PutListNCodes(t: nat, chars: seq<int>) returns (ok: bool)
      requires Valid() && UserTermT(t)
      modifies this, mem
      ensures Valid() && lTop == old(lTop) && fli == old(fli) && trail == old(trail) && tmpTop == old(tmpTop)
      ensures ok <==> |chars| == 0 || old(HasGlobalSpace(3 * |chars|))
      ensures !ok ==> unchanged(this, mem)
      ensures ok && |chars| == 0 ==> mem[..] == old(mem[..])[Addr(t) := NIL] && gTop == old(gTop)
      ensures ok && |chars| > 0 ==>
                gTop == old(gTop) + 3 * |chars| && mem[Addr(t)] == Compound(old(gTop))
                && ListCells(mem[..], mem[Addr(t)], |chars|)
                && ListHeads(mem[..], mem[Addr(t)], |chars|) == CodeWords(chars)
    {
      UserTermTIsTermT(t);
      if |chars| == 0 {
        SetHandle(lBase + t, NIL);
        return true;
      }
      if !HasGlobalSpace(3 * |chars|) {
        return false;
      }
      PutByteList(lBase + t, CodeWords(chars));
      return true;
    }

    /**
     * PL_put_list_nchars(): t gets the list of the one-character atoms of
     * the codes c & 0xff, [] for none; false when the global stack has no room.
     */
    method PutListNChars(t: nat, chars: seq<int>) returns (ok: bool)
      requires Valid() && UserTermT(t)
      modifies this, mem
      ensures Valid() && lTop == old(lTop) && fli == old(fli) && trail == old(trail) && tmpTop == old(tmpTop)
      ensures ok <==> |chars| == 0 || old(HasGlobalSpace(3 * |chars|))
      ensures !ok ==> unchanged(this, mem)
      ensures ok && |chars| == 0 ==> mem[..] == old(mem[..])[Addr(t) := NIL] && gTop == old(gTop)
      ensures ok && |chars| > 0 ==>
                gTop == old(gTop) + 3 * |chars| && mem[Addr(t)] == Compound(old(gTop))
                && ListCells(mem[..], mem[Addr(t)], |chars|)
                && ListHeads(mem[..], mem[Addr(t)], |chars|) == CharWords(chars)
    {
      UserTermTIsTermT(t);
      if |chars| == 0 {
        SetHandle(lBase + t, NIL);
        return true;
      }
      if !HasGlobalSpace(3 * |chars|) {
        return false;
      }
      PutByteList(lBase + t, CharWords(chars));
      return true;
    }
 
    /*****************************************************************
     * Dicts (src/pl-fli.c:4207-4256)
     *****************************************************************/

    /**
     * The globalizeTermRef() loop of PL_put_dict(): every value handle
     * that held an unbound variable is bound to a fresh global variable,
     * the others keep their cell; false on the first stack overflow.
     */
    method GlobalizeValues(v0: nat, n: nat) returns (ok: bool)
      requires Valid() && 0 < v0 && HandleCell(v0, n) <= lTop
      modifies this, mem
      ensures Valid() && lTop == old(lTop) && fli == old(fli) && tmpTop == old(tmpTop)
      ensures ok ==> forall k :: 0 <= k < n ==> !mem[HandleCell(v0, k)].Var?
      ensures ok ==> forall k :: 0 <= k < n && !old(mem[HandleCell(v0, k)]).Var? ==>
                       mem[HandleCell(v0, k)] == old(mem[HandleCell(v0, k)])
      ensures forall y :: lBase <= y < mem.Length && !(HandleCell(v0, 0) <= y < HandleCell(v0, n)) ==> mem[y] == old(mem[y])
    {
      var i := 0;
      while i < n
        invariant i <= n && Valid() && lTop == old(lTop) && fli == old(fli) && tmpTop == old(tmpTop)
        invariant forall k :: 0 <= k < i ==> !mem[HandleCell(v0, k)].Var?
        invariant forall k :: 0 <= k < i && !old(mem[HandleCell(v0, k)]).Var? ==>
                    mem[HandleCell(v0, k)] == old(mem[HandleCell(v0, k)])
        invariant forall y :: lBase <= y < mem.Length && !(HandleCell(v0, 0) <= y < HandleCell(v0, i)) ==> mem[y] == old(mem[y])
      {
        ghost var m := mem[..];
        assert forall k :: 0 <= k < i ==> !m[HandleCell(v0, k)].Var?;
        ok := GlobalizeLocal(v0 + i);
        if !ok {
          return false;
        }
        forall k | 0 <= k < i ensures !mem[HandleCell(v0, k)].Var? {
          assert lBase <= HandleCell(v0, k) < mem.Length && HandleCell(v0, k) != Addr(v0 + i);
          assert mem[HandleCell(v0, k)] == m[HandleCell(v0, k)];
        }
        i := i + 1;
      }
      return true;
    }

    /** Globalize() as seen from the local stack: only the cell of h changes there. */
    method GlobalizeLocal(h: nat) returns (ok: bool)
      requires Valid() && lBase < Addr(h) < lTop
      modifies this, mem
      ensures Valid() && lTop == old(lTop) && fli == old(fli) && tmpTop == old(tmpTop)
      ensures ok ==> !mem[Addr(h)].Var?
      ensures ok && !old(mem[Addr(h)]).Var? ==> mem[Addr(h)] == old(mem[Addr(h)])
      ensures forall y :: lBase <= y < mem.Length && y != Addr(h) ==> mem[y] == old(mem[y])
    {
      ok := Globalize(h);
    }

    /**
     * The filling part of PL_put_dict() into the cells from g, which lie
     * above everything reachable: the dict functor, the tag, then each
     * value (linkValI() of its handle) followed by its key.  It stops with
     * false at a tag that is not an atom or at the first key that is not
     * a dict key.
     */
    method WriteDict(g: nat, tag: Option<Cell>, keys: seq<Cell>, vals: seq<nat>) returns (ok: bool)
      requires DictValueCell(g, |keys|) <= lBase <= mem.Length && |vals| == |keys|
      requires forall k :: 0 <= k < |vals| ==> lBase <= vals[k] < mem.Length && !mem[vals[k]].Var?
      requires RefsOk(mem[..], g, g, lBase) && LocalNoAttVar(mem[..], lBase)
      modifies mem
      ensures RefsOk(mem[..], g, g, lBase) && LocalNoAttVar(mem[..], lBase)
      ensures forall y :: 0 <= y < mem.Length && !(g <= y < DictValueCell(g, |keys|)) ==> mem[y] == old(mem[y])
      ensures ok <==> DictInputOk(tag, keys)
      ensures ok ==> mem[g] == DictFunctor(|keys|) && mem[g + 1] == TagCell(tag)
                     && DictPairs(mem[..], g, keys, old(mem[..]), vals, |keys|)
    {
      ghost var m0 := mem[..];
      var n := |keys|;
      Store(g, DictFunctor(n), g, g);
      if tag.Some? && !tag.value.Atom? {
        return false;
      }
      Store(g + 1, TagCell(tag), g, g);
      ok := WriteDictPairs(g, keys, vals, m0);
    }

    /** The value/key pairs of WriteDict(), after the functor and the tag at g and g+1. */
    method WriteDictPairs(g: nat, keys: seq<Cell>, vals: seq<nat>, ghost m0: seq<Cell>) returns (ok: bool)
      requires DictValueCell(g, |keys|) <= lBase <= mem.Length == |m0| && |vals| == |keys|
      requires forall k :: 0 <= k < |vals| ==> lBase <= vals[k] < mem.Length && !mem[vals[k]].Var?
      requires RefsOk(mem[..], g, g, lBase) && LocalNoAttVar(mem[..], lBase) && RefsOk(m0, g, g, lBase)
      requires forall y :: 0 <= y < mem.Length && !(g <= y < g + 2) ==> mem[y] == m0[y]
      modifies mem
      ensures RefsOk(mem[..], g, g, lBase) && LocalNoAttVar(mem[..], lBase)
      ensures forall y :: 0 <= y < mem.Length && !(g + 2 <= y < DictValueCell(g, |keys|)) ==> mem[y] == old(mem[y])
      ensures ok <==> forall k :: 0 <= k < |keys| ==> IsDictKey(keys[k])
      ensures ok ==> DictPairs(mem[..], g, keys, m0, vals, |keys|)
    {
      var i := 0;
      while i < |keys|
        invariant i <= |keys|
        invariant RefsOk(mem[..], g, g, lBase) && LocalNoAttVar(mem[..], lBase)
        invariant forall y :: 0 <= y < mem.Length && !(g + 2 <= y < DictValueCell(g, i)) ==> mem[y] == old(mem[y])
        invariant DictPairs(mem[..], g, keys, m0, vals, i)
        invariant forall k :: 0 <= k < i ==> IsDictKey(keys[k])
      {
        ghost var m := mem[..];
        var x := DictValueCell(g, i);
        LinkValKeptAbove(m0, m, g, lBase, vals[i]);
        ok := WriteDictPair(x, vals[i], keys[i], g);
        if !ok {
          return;
        }
        DictPairsStep(m, g, keys, m0, vals, i);
        i := i + 1;
      }
      return true;
    }

    /** One value/key pair of a dict into the cells x and x+1; false, after the value, for a bad key. */
    method WriteDictPair(x: nat, p: nat, key: Cell, ghost g: nat) returns (ok: bool)
      requires RefsOk(mem[..], g, g, lBase) && LocalNoAttVar(mem[..], lBase) && g <= x && x + 1 < lBase
      requires lBase <= p < mem.Length && !mem[p].Var?
      modifies mem
      ensures RefsOk(mem[..], g, g, lBase) && LocalNoAttVar(mem[..], lBase)
      ensures ok <==> IsDictKey(key)
      ensures ok ==> mem[..] == old(mem[..])[x := LinkValI(old(mem[..]), p)][x + 1 := key]
      ensures !ok ==> mem[..] == old(mem[..])[x := LinkValI(old(mem[..]), p)]
    {
      StoreLinkFresh(x, p, g);
      if !IsDictKey(key) {
        return false;
      }
      Store(x + 1, key, g, g);
      return true;
    }

    /** `*p = linkValI(valTermRef(h))` into a cell x above everything reachable. */
    method StoreLinkFresh(x: nat, p: nat, ghost g: nat)
      requires RefsOk(mem[..], g, g, lBase) && LocalNoAttVar(mem[..], lBase) && g <= x < lBase
      requires lBase <= p < mem.Length && !mem[p].Var?
      modifies mem
      ensures mem[..] == old(mem[..])[x := LinkValI(old(mem[..]), p)]
      ensures RefsOk(mem[..], g, g, lBase) && LocalNoAttVar(mem[..], lBase)
    {
      CopyLinkValFresh(mem[..], g, g, lBase, x, p);
      var q := DerefCell(p, g, g);
      var w := if CanBind(mem[q]) then Ref(q) else mem[q];
      Store(x, w, g, g);
    }

    /**
     * PL_put_dict() once the values are globalized, on the cell x of t and
     * the value cells vals.  0 when the global stack has no room; -1 for
     * an invalid tag or key and -2 when dict_order() refuses (`ordered`
     * stands for its verdict), both after rolling gTop back; 1 when x now
     * holds the new dict.
     */
    method PutDictAt(x: nat, tag: Option<Cell>, keys: seq<Cell>, vals: seq<nat>, ordered: bool) returns (r: int)
      requires Valid() && lBase <= x < mem.Length && |vals| == |keys|
      requires forall k :: 0 <= k < |vals| ==> lBase <= vals[k] < mem.Length && !mem[vals[k]].Var?
      modifies this, mem
      ensures Valid() && lTop == old(lTop) && fli == old(fli) && trail == old(trail) && tmpTop == old(tmpTop)
      ensures r == 0 <==> !old(HasGlobalSpace(2 * |keys| + 2))
      ensures r == 0 ==> unchanged(this, mem)
      ensures r != 0 ==> (r == -1 <==> !DictInputOk(tag, keys))
                         && (r == -2 <==> DictInputOk(tag, keys) && !ordered)
                         && (r == 1 <==> DictInputOk(tag, keys) && ordered)
      ensures r < 0 ==> gTop == old(gTop)
                        && forall y :: 0 <= y < mem.Length && !(old(gTop) <= y < old(gTop) + 2 * |keys| + 2) ==>
                             mem[y] == old(mem[y])
      ensures r == 1 ==>
                gTop == old(gTop) + 2 * |keys| + 2 && mem[x] == Compound(old(gTop))
                && mem[old(gTop)] == DictFunctor(|keys|) && mem[old(gTop) + 1] == TagCell(tag)
                && (forall k :: 0 <= k < |keys| ==> mem[DictValueCell(old(gTop), k) + 1] == keys[k])
                && (forall k :: 0 <= k < |keys| && vals[k] != x ==> SameTerm(mem[..], DictValueCell(old(gTop), k), vals[k]))
    {
      var n := |keys|;
      if !HasGlobalSpace(2 * n + 2) {      // allocGlobal() failed
        return 0;
      }
      var g := gTop;
      ghost var m0 := mem[..];
      var ok := WriteDict(g, tag, keys, vals);
      if !ok {
        return -1;                         // gTop -= size
      }
      if !ordered {
        return -2;                         // gTop -= size
      }
      ghost var m1 := mem[..];
      DictValuesDenoted(m0, m1, g, lBase, keys, vals);
      gTop := g + 2 * n + 2;
      RefsOkWeaken(m1, g, g, gTop, gTop, lBase);
      Store(x, Compound(g), gTop, gTop);
      forall k | 0 <= k < n && vals[k] != x
        ensures SameTerm(mem[..], DictValueCell(g, k), vals[k])
      {
        SameTermStoreElsewhere(m1, gTop, lBase, x, Compound(g), DictValueCell(g, k), vals[k]);
      }
      return 1;
    }

    /**
     * PL_put_dict(): t gets the dict tag{keys[k]: value handle v0+k}.
     * 1 on success; 0 when globalizing a value or allocating the dict
     * overflows the global stack; -1 for an invalid tag or key and -2 for
     * a dict_order() refusal, neither leaving anything on the global stack
     * beyond the globalized values.
     */
    method PutDict(t: nat, tag: Option<Cell>, keys: seq<Cell>, v0: nat, ordered: bool) returns (r: int)
      requires Valid() && UserTermT(t) && 0 < v0 && HandleCell(v0, |keys|) <= lTop
      modifies this, mem
      ensures Valid() && lTop == old(lTop) && fli == old(fli) && tmpTop == old(tmpTop)
      ensures r == 1 || r == 0 || r == -1 || r == -2
      ensures r == -1 ==> !DictInputOk(tag, keys)
      ensures r == -2 ==> DictInputOk(tag, keys) && !ordered
      ensures r == 1 ==> DictInputOk(tag, keys) && ordered
      ensures r < 0 ==> mem[Addr(t)] == old(mem[Addr(t)]) || HandleCell(v0, 0) <= Addr(t) < HandleCell(v0, |keys|)
      ensures r == 1 ==>
                var d := mem[Addr(t)];
                d.Compound? && d.addr + 2 * |keys| + 2 == gTop
                && mem[d.addr] == DictFunctor(|keys|) && mem[d.addr + 1] == TagCell(tag)
                && (forall k :: 0 <= k < |keys| ==> mem[DictValueCell(d.addr, k) + 1] == keys[k])
                && (forall k :: 0 <= k < |keys| && v0 + k != t ==>
                      SameTerm(mem[..], DictValueCell(d.addr, k), HandleCell(v0, k)))
    {
      UserTermTIsTermT(t);
      var n := |keys|;
      var ok := GlobalizeValues(v0, n);
      if !ok {
        return 0;
      }
      var base := lBase + v0;
      var vals := seq(n, k requires 0 <= k => base + k);
      assert forall k :: 0 <= k < n ==> vals[k] == HandleCell(v0, k);
      r := PutDictAt(lBase + t, tag, keys, vals, ordered);
    }
  }
}
