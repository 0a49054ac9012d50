/*
 * What the binding primitives of src/pl-fli.c do to the cells, stated on
 * the cell sequence: bindConsVal() and the layout of the lists the
 * builders write.  The lemmas say that each store keeps the reference
 * invariant of FliCells and that the filled cell denotes the intended term.
 */
module FliBind {

  import opened FliCells

  /** The two cells denote the same term: the same variable, or the same value word. */
  predicate SameTerm(m: seq<Cell>, p: nat, r: nat)
    requires p < |m| && r < |m|
  {
    LinkValI(m, p) == LinkValI(m, r)
  }

  /**
   * Dereferencing a live cell only visits the cell itself and global cells
   * below `loc`, so a store at a cell that is not yet reachable (at or
   * above `loc`) or at another local cell does not change where it ends.
   */
  lemma {:induction false} DerefStoreElsewhere(m: seq<Cell>, m': seq<Cell>, up: nat, loc: nat, lBase: nat, x: nat, p: nat)
    requires RefsOk(m, up, loc, lBase) && up <= loc <= lBase && |m'| == |m| && p < |m| && x < |m|
    requires (p < loc || lBase <= p) && p != x && (loc <= x || lBase <= x)
    requires forall y :: 0 <= y < |m| && y != x ==> m'[y] == m[y]
    ensures Deref(m', p) == Deref(m, p) && Deref(m, p) != x
    decreases p
  {
    if m[p].Ref? {
      assert RefOkAt(m, up, loc, lBase, p);
      var a := m[p].addr;
      if a < p {
        DerefStoreElsewhere(m, m', up, loc, lBase, x, a);
      }
    }
  }

  lemma LinkValStoreElsewhere(m: seq<Cell>, m': seq<Cell>, up: nat, loc: nat, lBase: nat, x: nat, p: nat)
    requires RefsOk(m, up, loc, lBase) && up <= loc <= lBase && |m'| == |m| && p < |m| && x < |m|
    requires (p < loc || lBase <= p) && p != x && (loc <= x || lBase <= x)
    requires forall y :: 0 <= y < |m| && y != x ==> m'[y] == m[y]
    ensures Deref(m', p) == Deref(m, p) && LinkValI(m', p) == LinkValI(m, p)
  {
    DerefStoreElsewhere(m, m', up, loc, lBase, x, p);
  }

  /** A store into a local cell keeps two other cells denoting the same term. */
  lemma SameTermStoreElsewhere(m: seq<Cell>, up: nat, lBase: nat, x: nat, v: Cell, a: nat, b: nat)
    requires RefsOk(m, up, up, lBase) && up <= lBase <= x < |m| && a < |m| && b < |m|
    requires (a < up || lBase <= a) && (b < up || lBase <= b) && a != x && b != x
    requires SameTerm(m, a, b)
    ensures SameTerm(m[x := v], a, b)
  {
    LinkValStoreElsewhere(m, m[x := v], up, up, lBase, x, a);
    LinkValStoreElsewhere(m, m[x := v], up, up, lBase, x, b);
  }

  /**
   * A store at a cell that is not a reference changes no dereference,
   * unless it turns the cell where one ends into a reference.
   */
  lemma {:induction false} DerefStore(m: seq<Cell>, x: nat, v: Cell, p: nat)
    requires x < |m| && p < |m| && !m[x].Ref?
    requires x != Deref(m, p) || !v.Ref?
    ensures Deref(m[x := v], p) == Deref(m, p)
    decreases p
  {
    if m[p].Ref? && m[p].addr < p {
      DerefStore(m, x, v, m[p].addr);
    }
  }

  /**
   * Binding the unbound variable q where p's chain ends to a reference
   * to a lower cell a extends the chain: p now ends where a does.  No
   * reference points up at an unbound variable, so every chain into q
   * reaches it by a downward hop.
   */
  lemma {:induction false} DerefRedirect(m: seq<Cell>, up: nat, loc: nat, lBase: nat, q: nat, a: nat, p: nat)
    requires RefsOk(m, up, loc, lBase) && p < |m| && q < |m| && m[q].Var? && a < q
    requires Deref(m, p) == q
    ensures Deref(m[q := Ref(a)], p) == Deref(m[q := Ref(a)], a)
    decreases p
  {
    if p != q {
      assert RefOkAt(m, up, loc, lBase, p);
      DerefRedirect(m, up, loc, lBase, q, a, m[p].addr);
    }
  }

  /*****************************************************************
   * bindConst() (the binding store behind the PL_unify_*() family)
   *****************************************************************/

  /**
   * Binding an unbound cell q to a value c (an atomic word or a compound
   * pointer) keeps the invariant, changes no dereference, and every cell
   * whose chain ended at q now denotes c; all others keep their term.
   */
  lemma BindConstFacts(m: seq<Cell>, up: nat, loc: nat, lBase: nat, q: nat, c: Cell)
    requires RefsOk(m, up, loc, lBase) && LocalNoAttVar(m, lBase)
    requires q < |m| && CanBind(m[q]) && !c.Ref? && !CanBind(c)
    ensures RefsOk(m[q := c], up, loc, lBase) && LocalNoAttVar(m[q := c], lBase)
    ensures forall p :: 0 <= p < |m| ==> Deref(m[q := c], p) == Deref(m, p)
    ensures forall p :: 0 <= p < |m| ==>
              LinkValI(m[q := c], p) == if Deref(m, p) == q then c else LinkValI(m, p)
  {
    WritePreservesRefs(m, up, loc, lBase, q, c);
    forall p | 0 <= p < |m| ensures Deref(m[q := c], p) == Deref(m, p) {
      DerefStore(m, q, c, p);
    }
  }

  /*****************************************************************
   * bArgVar() (src/pl-fli.c:429-444)
   *****************************************************************/

  /**
   * bArgVar(ap, vp): unify the unbound argument cell ap of a new structure
   * with the value at vp.  Two plain variables are linked from the higher
   * to the lower cell; an attributed variable is referenced; a value is
   * copied.
   */
  function BArgVarM(m: seq<Cell>, ap: nat, vp: nat): (m': seq<Cell>)
    requires ap < |m| && vp < |m|
    ensures |m'| == |m|
  {
    var q := Deref(m, vp);
    if m[q].Var? then
      if ap < q then m[ap := Var][q := Ref(ap)] else m[ap := Ref(q)]
    else if m[q].AttVar? then m[ap := Ref(q)]
    else m[ap := m[q]]
  }

  /** Afterwards ap and vp denote the same term, and only ap and vp's end cell changed. */
  lemma BArgVarFacts(m: seq<Cell>, up: nat, lBase: nat, ap: nat, vp: nat)
    requires RefsOk(m, up, up, lBase) && LocalNoAttVar(m, lBase) && up <= lBase
    requires ap < up && ap < |m| && m[ap].Var? && vp < |m| && (vp < up || lBase <= vp)
    requires Deref(m, vp) != ap
    ensures var m' := BArgVarM(m, ap, vp);
            RefsOk(m', up, up, lBase) && LocalNoAttVar(m', lBase) && SameTerm(m', ap, vp)
            && forall x :: 0 <= x < |m| && x != ap && x != Deref(m, vp) ==> m'[x] == m[x]
  {
    DerefFacts(m, up, up, lBase, vp);
    var q := Deref(m, vp);
    var m' := BArgVarM(m, ap, vp);
    if m[q].Var? && ap < q {
      assert m[ap := Var] == m;
      WritePreservesRefs(m, up, up, lBase, q, Ref(ap));
      DerefRedirect(m, up, up, lBase, q, ap, vp);
      assert Deref(m', ap) == ap;
    } else {
      var v := if CanBind(m[q]) then Ref(q) else m[q];
      assert m' == m[ap := v];
      WritePreservesRefs(m, up, up, lBase, ap, v);
      DerefStore(m, ap, v, vp);
      if CanBind(m[q]) {
        assert Deref(m', ap) == q;
      } else {
        assert Deref(m', ap) == ap;
      }
    }
  }

  /**
   * setHandle(t, linkValI(p)) for a live cell p other than the local cell
   * t, where p is not an unbound local variable: a legal store after which
   * t denotes p's term and p still does.
   */
  lemma CopyLinkVal(m: seq<Cell>, up: nat, lBase: nat, t: nat, p: nat)
    requires RefsOk(m, up, up, lBase) && LocalNoAttVar(m, lBase) && up <= lBase <= t < |m|
    requires p < |m| && p != t && (p < up || lBase <= p) && (lBase <= p ==> !m[p].Var?)
    ensures WriteOk(m, up, up, lBase, t, LinkValI(m, p))
    ensures var m' := m[t := LinkValI(m, p)];
            LinkValI(m', t) == LinkValI(m', p) == LinkValI(m, p)
  {
    var m' := m[t := LinkValI(m, p)];
    DerefFacts(m, up, up, lBase, p);
    LinkValStoreElsewhere(m, m', up, up, lBase, t, p);
    var q := Deref(m, p);
    if CanBind(m[q]) {
      LinkValStoreElsewhere(m, m', up, up, lBase, t, q);
    }
  }

  /**
   * Storing linkValI(p) into a fresh global cell x above everything
   * reachable: a legal store after which x denotes p's term.
   */
  lemma CopyLinkValFresh(m: seq<Cell>, up: nat, loc: nat, lBase: nat, x: nat, p: nat)
    requires RefsOk(m, up, loc, lBase) && LocalNoAttVar(m, lBase) && up <= loc <= x < lBase && x < |m|
    requires p < |m| && (p < up || lBase <= p) && (lBase <= p ==> !m[p].Var?)
    ensures WriteOk(m, up, loc, lBase, x, LinkValI(m, p))
    ensures var m' := m[x := LinkValI(m, p)];
            LinkValI(m', x) == LinkValI(m', p) == LinkValI(m, p)
  {
    var m' := m[x := LinkValI(m, p)];
    DerefFacts(m, up, loc, lBase, p);
    LinkValStoreElsewhere(m, m', up, loc, lBase, x, p);
    var q := Deref(m, p);
    if CanBind(m[q]) {
      LinkValStoreElsewhere(m, m', up, loc, lBase, x, q);
    }
  }

  /*****************************************************************
   * bindConsVal() (src/pl-fli.c:1443-1454)
   *****************************************************************/

  /**
   * bindConsVal(to, p): fill the new argument cell `to` with the value of
   * p.  An unbound plain variable above `to` is made to point down at `to`
   * (left unbound); an unbound variable below `to`, or an attributed one,
   * is referenced from `to`; a value is copied.
   */
  function BindConsValM(m: seq<Cell>, to: nat, p: nat): (m': seq<Cell>)
    requires to < |m| && p < |m|
    ensures |m'| == |m|
  {
    var q := Deref(m, p);
    if CanBind(m[q]) then
      if to < q && !m[q].AttVar? then m[to := Var][q := Ref(to)]
      else m[to := Ref(q)]
    else m[to := m[q]]
  }

  /** bindConsVal() writes the slot and possibly a variable above it, never a cell below the slot. */
  lemma BindConsValBelow(m: seq<Cell>, to: nat, p: nat, x: nat)
    requires to < |m| && p < |m| && x < to
    ensures BindConsValM(m, to, p)[x] == m[x]
  {
  }

  /**
   * For a handle cell p and the next argument cell `to` (every cell from
   * `up` below `to` already filled): the invariant holds one cell further,
   * `to` and p denote the same term, p is no longer a plain variable, only
   * `to` and p change, and every other live cell keeps its term.
   */
  lemma BindConsValFacts(m: seq<Cell>, up: nat, lBase: nat, to: nat, p: nat)
    requires RefsOk(m, up, to, lBase) && LocalNoAttVar(m, lBase)
    requires up <= to < lBase <= p < |m|
    ensures var m' := BindConsValM(m, to, p);
            RefsOk(m', up, to + 1, lBase) && LocalNoAttVar(m', lBase)
            && SameTerm(m', to, p) && !m'[p].Var?
            && (forall x :: 0 <= x < |m| && x != to && x != p ==> m'[x] == m[x])
            && (m'[p] == m[p] || (m[p].Var? && m'[p] == Ref(to)))
            && (forall r :: 0 <= r < |m| && (r < to || lBase <= r) && (r != p || !m[p].Var?) ==>
                  LinkValI(m', r) == LinkValI(m, r))
  {
    DerefFacts(m, up, to, lBase, p);
    var q := Deref(m, p);
    var m' := BindConsValM(m, to, p);
    assert !m[p].AttVar?;
    if CanBind(m[q]) && to < q && !m[q].AttVar? {
      assert q == p;
      var m1 := m[to := Var];
      WritePreservesRefs(m, up, to, lBase, to, Var);
      RefsOkWeaken(m1, up, to, up, to + 1, lBase);
      WritePreservesRefs(m1, up, to + 1, lBase, p, Ref(to));
      RefsOkWeaken(m', up, to + 1, up, to + 1, lBase);
      forall r | 0 <= r < |m| && (r < to || lBase <= r) && (r != p || !m[p].Var?)
        ensures LinkValI(m', r) == LinkValI(m, r)
      {
        LinkValStoreElsewhere(m, m1, up, to, lBase, to, r);
        LinkValStoreElsewhere(m1, m', up, to + 1, lBase, p, r);
      }
      assert Deref(m', to) == to;
      assert Deref(m', p) == to;
    } else {
      var v := if CanBind(m[q]) then Ref(q) else m[q];
      assert m' == m[to := v];
      WritePreservesRefs(m, up, to, lBase, to, v);
      RefsOkWeaken(m', up, to, up, to + 1, lBase);
      forall r | 0 <= r < |m| && (r < to || lBase <= r) && (r != p || !m[p].Var?)
        ensures LinkValI(m', r) == LinkValI(m, r)
      {
        LinkValStoreElsewhere(m, m', up, to, lBase, to, r);
      }
      assert LinkValI(m', p) == LinkValI(m, p);
      if CanBind(m[q]) {
        assert Deref(m', q) == q;
        assert Deref(m', to) == q;
      } else {
        assert Deref(m', to) == to;
      }
    }
  }

  /*****************************************************************
   * Lists written directly on the global stack
   *****************************************************************/

  /** c is a proper list of n cells whose tail slots hold the next cell directly, ending in []. */
  ghost predicate ListCells(m: seq<Cell>, c: Cell, n: nat)
    decreases n
  {
    if n == 0 then c == NIL
    else c.Compound? && c.addr + 2 < |m| && m[c.addr] == FUNCTOR_DOT2 && ListCells(m, m[c.addr + 2], n - 1)
  }

  /**
   * The layout the list builders write from g: n cons cells of three
   * words, the k-th tail pointing at cell k+1 and the last one at [].
   */
  ghost predicate ListLayout(m: seq<Cell>, g: nat, n: nat)
  {
    g + 3 * n <= |m| && ListPrefix(m, g, n, n)
  }

  /** The address of the k-th cons cell of a list laid out from g. */
  function ConsCell(g: nat, k: nat): nat { g + 3 * k }

  /** The tail of cons cell k of n: the next cell, or [] for the last. */
  function ListTail(g: nat, n: nat, k: nat): Cell {
    if k + 1 < n then Compound(g + 3 * k + 3) else NIL
  }

  /** The first i cells of that layout are in place. */
  ghost predicate ListPrefix(m: seq<Cell>, g: nat, n: nat, i: nat)
    requires g + 3 * i <= |m|
    decreases i
  {
    i == 0
    || (ListPrefix(m, g, n, i - 1)
        && m[ConsCell(g, i - 1)] == FUNCTOR_DOT2 && m[ConsCell(g, i - 1) + 2] == ListTail(g, n, i - 1))
  }

  /** Each of the first i cells of a laid-out prefix holds '[|]' and its tail. */
  lemma {:induction false} ListPrefixAt(m: seq<Cell>, g: nat, n: nat, i: nat, j: nat)
    requires g + 3 * i <= |m| && ListPrefix(m, g, n, i) && j < i
    ensures m[ConsCell(g, j)] == FUNCTOR_DOT2 && m[ConsCell(g, j) + 2] == ListTail(g, n, j)
    decreases i
  {
    if j < i - 1 {
      ListPrefixAt(m, g, n, i - 1, j);
    }
  }

  /** A prefix survives any change above it. */
  lemma {:induction false} ListPrefixKeep(m: seq<Cell>, m': seq<Cell>, g: nat, n: nat, i: nat)
    requires g + 3 * i <= |m| && |m'| == |m| && ListPrefix(m, g, n, i)
    requires forall x :: 0 <= x < ConsCell(g, i) ==> m'[x] == m[x]
    ensures ListPrefix(m', g, n, i)
    decreases i
  {
    if i > 0 {
      ListPrefixKeep(m, m', g, n, i - 1);
      assert m'[ConsCell(g, i - 1)] == m[ConsCell(g, i - 1)];
      assert m'[ConsCell(g, i - 1) + 2] == m[ConsCell(g, i - 1) + 2];
    }
  }

  /** From cell j on, the layout is a proper list of the remaining n-j cells. */
  lemma {:induction false} ListLayoutFrom(m: seq<Cell>, g: nat, n: nat, j: nat)
    requires ListLayout(m, g, n) && j < n
    ensures ListCells(m, Compound(ConsCell(g, j)), n - j)
    decreases n - j
  {
    ListPrefixAt(m, g, n, n, j);
    if j + 1 < n {
      ListLayoutFrom(m, g, n, j + 1);
      assert ListTail(g, n, j) == Compound(ConsCell(g, j + 1));
    }
  }

  /** The layout of n > 0 cells from g is a proper list of n elements. */
  lemma ListLayoutIsList(m: seq<Cell>, g: nat, n: nat)
    requires ListLayout(m, g, n) && n > 0
    ensures ListCells(m, Compound(g), n)
  {
    ListLayoutFrom(m, g, n, 0);
  }

  /** The head words of a proper list of n cells, in order. */
  ghost function ListHeads(m: seq<Cell>, c: Cell, n: nat): (hs: seq<Cell>)
    requires ListCells(m, c, n)
    ensures |hs| == n
    decreases n
  {
    if n == 0 then [] else [m[c.addr + 1]] + ListHeads(m, m[c.addr + 2], n - 1)
  }

  /** The head words of the first i cells of the layout from g are heads[..i]. */
  ghost predicate HeadsAt(m: seq<Cell>, g: nat, heads: seq<Cell>, i: nat)
    requires i <= |heads| && g + 3 * i <= |m|
    decreases i
  {
    i == 0 || (HeadsAt(m, g, heads, i - 1) && m[ConsCell(g, i - 1) + 1] == heads[i - 1])
  }

  lemma {:induction false} HeadsAtAt(m: seq<Cell>, g: nat, heads: seq<Cell>, i: nat, j: nat)
    requires i <= |heads| && g + 3 * i <= |m| && HeadsAt(m, g, heads, i) && j < i
    ensures m[ConsCell(g, j) + 1] == heads[j]
    decreases i
  {
    if j < i - 1 {
      HeadsAtAt(m, g, heads, i - 1, j);
    }
  }

  lemma {:induction false} HeadsAtKeep(m: seq<Cell>, m': seq<Cell>, g: nat, heads: seq<Cell>, i: nat)
    requires i <= |heads| && g + 3 * i <= |m| && |m'| == |m| && HeadsAt(m, g, heads, i)
    requires forall x :: 0 <= x < ConsCell(g, i) ==> m'[x] == m[x]
    ensures HeadsAt(m', g, heads, i)
    decreases i
  {
    if i > 0 {
      HeadsAtKeep(m, m', g, heads, i - 1);
      assert m'[ConsCell(g, i - 1) + 1] == m[ConsCell(g, i - 1) + 1];
    }
  }

  /** A prefix laid out for a longer list is one for a list of n as long as its last cell is not reached. */
  lemma {:induction false} ListPrefixShorter(m: seq<Cell>, g: nat, n: nat, i: nat)
    requires g + 3 * i <= |m| && i < n && ListPrefix(m, g, n + 1, i)
    ensures ListPrefix(m, g, n, i)
    decreases i
  {
    if i > 0 {
      ListPrefixShorter(m, g, n, i - 1);
    }
  }

  /** Read from cell j, a laid-out list with heads `heads` has the heads heads[j..]. */
  lemma {:induction false} ListLayoutHeadsFrom(m: seq<Cell>, g: nat, heads: seq<Cell>, j: nat)
    requires ListLayout(m, g, |heads|) && HeadsAt(m, g, heads, |heads|) && j < |heads|
    ensures ListCells(m, Compound(ConsCell(g, j)), |heads| - j)
    ensures ListHeads(m, Compound(ConsCell(g, j)), |heads| - j) == heads[j..]
    decreases |heads| - j
  {
    var n := |heads|;
    ListLayoutFrom(m, g, n, j);
    ListPrefixAt(m, g, n, n, j);
    HeadsAtAt(m, g, heads, n, j);
    if j + 1 < n {
      ListLayoutHeadsFrom(m, g, heads, j + 1);
      assert ListTail(g, n, j) == Compound(ConsCell(g, j + 1));
      assert heads[j..] == [heads[j]] + heads[j + 1..];
    } else {
      assert heads[j..] == [heads[j]];
    }
  }

  /**
   * The byte-list loop leaves every tail pointing at the next cell; once
   * the last tail is overwritten with [] the layout is that of a proper
   * list of n cells, heads unchanged.
   */
  lemma ByteListClose(m: seq<Cell>, g: nat, heads: seq<Cell>)
    requires |heads| > 0 && g + 3 * |heads| <= |m|
    requires ListPrefix(m, g, |heads| + 1, |heads|) && HeadsAt(m, g, heads, |heads|)
    ensures var m' := m[ConsCell(g, |heads| - 1) + 2 := NIL];
            ListLayout(m', g, |heads|) && HeadsAt(m', g, heads, |heads|)
  {
    var n := |heads|;
    var last := ConsCell(g, n - 1);
    var m' := m[last + 2 := NIL];
    ListPrefixShorter(m, g, n, n - 1);
    ListPrefixKeep(m, m', g, n, n - 1);
    HeadsAtKeep(m, m', g, heads, n - 1);
  }

  /*****************************************************************
   * The argument loops of PL_cons_functor_v(), PL_cons_list() and
   * PL_cons_list_v()
   *****************************************************************/

  /**
   * The k-th cell filled by bindConsVal() in a structure at g: argument
   * k+1 of a compound, or the head of the k-th cell of a list laid out
   * as three words per element.
   */
  function ArgSlot(g: nat, list: bool, k: nat): nat {
    if list then ConsCell(g, k) + 1 else g + 1 + k
  }

  /** The cell x was a plain variable among the first i handles, which bindConsVal() may redirect. */
  ghost predicate Consumed(m0: seq<Cell>, args: seq<nat>, i: nat, x: nat)
    requires x < |m0| && i <= |args|
  {
    m0[x].Var? && InPrefix(args, i, x)
  }

  /** x is one of args[0..i). */
  ghost predicate InPrefix(args: seq<nat>, i: nat, x: nat)
    requires i <= |args|
    decreases i
  {
    i > 0 && (args[i - 1] == x || InPrefix(args, i - 1, x))
  }

  lemma {:induction false} InPrefixIsIn(args: seq<nat>, i: nat, x: nat)
    requires i <= |args|
    ensures InPrefix(args, i, x) <==> x in args[..i]
    decreases i
  {
    if i > 0 {
      InPrefixIsIn(args, i - 1, x);
      assert args[..i] == args[..i - 1] + [args[i - 1]];
    }
  }

  /** Slot k denotes the term of its handle args[k], and that handle is no longer a plain variable. */
  ghost predicate SlotLinked(m: seq<Cell>, g: nat, list: bool, args: seq<nat>, k: nat)
    requires k < |args|
  {
    ArgSlot(g, list, k) < |m| && args[k] < |m| && SameTerm(m, ArgSlot(g, list, k), args[k]) && !m[args[k]].Var?
  }

  /** The first i slots are linked to their handles. */
  ghost predicate ConsArgsLinked(m: seq<Cell>, g: nat, list: bool, args: seq<nat>, i: nat)
    requires i <= |args|
    decreases i
  {
    i == 0 || (ConsArgsLinked(m, g, list, args, i - 1) && SlotLinked(m, g, list, args, i - 1))
  }

  lemma {:induction false} ConsArgsLinkedAt(m: seq<Cell>, g: nat, list: bool, args: seq<nat>, i: nat, k: nat)
    requires i <= |args| && ConsArgsLinked(m, g, list, args, i) && k < i
    ensures SlotLinked(m, g, list, args, k)
    decreases i
  {
    if k < i - 1 {
      ConsArgsLinkedAt(m, g, list, args, i - 1, k);
    }
  }

  /**
   * The filled slots stay linked to their handles when no slot below lo
   * and no local cell holding a value changes the term it denotes.
   */
  lemma {:induction false} ConsArgsLinkedKeep(m: seq<Cell>, m': seq<Cell>, g: nat, list: bool, lBase: nat,
                                              args: seq<nat>, i: nat, lo: nat)
    requires i <= |args| && |m'| == |m| && ConsArgsLinked(m, g, list, args, i)
    requires i == 0 || ArgSlot(g, list, i - 1) < lo
    requires forall k :: 0 <= k < |args| ==> lBase <= args[k] < |m|
    requires forall r {:trigger LinkValI(m', r)} :: 0 <= r < |m| && (r < lo || (lBase <= r && !m[r].Var?)) ==>
               LinkValI(m', r) == LinkValI(m, r)
    requires forall r {:trigger m'[r]} :: lBase <= r < |m| && !m[r].Var? ==> !m'[r].Var?
    ensures ConsArgsLinked(m', g, list, args, i)
    decreases i
  {
    if i > 0 {
      ConsArgsLinkedKeep(m, m', g, list, lBase, args, i - 1, lo);
      var k := i - 1;
      assert SlotLinked(m, g, list, args, k);
      assert LinkValI(m', ArgSlot(g, list, k)) == LinkValI(m, ArgSlot(g, list, k));
      assert LinkValI(m', args[k]) == LinkValI(m, args[k]);
      assert !m'[args[k]].Var?;
    }
  }

  /**
   * Apart from the cells [g, e) written so far and the variables among
   * the first i handles, no cell has changed.
   */
  ghost predicate ConsArgsFrame(m0: seq<Cell>, m: seq<Cell>, g: nat, e: nat, args: seq<nat>, i: nat)
    requires |m| == |m0| && i <= |args|
  {
    forall x :: 0 <= x < |m| && !(g <= x < e) && !Consumed(m0, args, i, x) ==> m[x] == m0[x]
  }

  lemma ConsArgsLinkedStep(m: seq<Cell>, g: nat, list: bool, lBase: nat, args: seq<nat>, i: nat)
    requires i < |args| && ArgSlot(g, list, i) < lBase <= |m|
    requires forall k :: 0 <= k < |args| ==> lBase <= args[k] < |m|
    requires RefsOk(m, g, ArgSlot(g, list, i), lBase) && LocalNoAttVar(m, lBase)
    requires ConsArgsLinked(m, g, list, args, i)
    ensures ConsArgsLinked(BindConsValM(m, ArgSlot(g, list, i), args[i]), g, list, args, i + 1)
  {
    var to := ArgSlot(g, list, i);
    var m' := BindConsValM(m, to, args[i]);
    BindConsValFacts(m, g, lBase, to, args[i]);
    ConsArgsLinkedKeep(m, m', g, list, lBase, args, i, to);
  }

  /** bindConsVal() into the next cell `to` changes only that cell and the variable handle it consumes. */
  lemma ConsArgsFrameStep(m0: seq<Cell>, m: seq<Cell>, g: nat, to: nat, lBase: nat, args: seq<nat>, i: nat)
    requires |m| == |m0| && i < |args| && g <= to < lBase <= |m|
    requires forall k :: 0 <= k < |args| ==> lBase <= args[k] < |m|
    requires RefsOk(m, g, to, lBase) && LocalNoAttVar(m, lBase)
    requires ConsArgsFrame(m0, m, g, to, args, i)
    ensures ConsArgsFrame(m0, BindConsValM(m, to, args[i]), g, to + 1, args, i + 1)
  {
    var p := args[i];
    var m' := BindConsValM(m, to, p);
    BindConsValFacts(m, g, lBase, to, p);
    assert Consumed(m0, args, i + 1, p) <==> m0[p].Var?;
    forall x | 0 <= x < |m| && !(g <= x < to + 1) && !Consumed(m0, args, i + 1, x)
      ensures m'[x] == m0[x]
    {
      assert !Consumed(m0, args, i, x);
    }
  }

  /**
   * A store into a cell of the structure not yet reachable (at or above
   * `loc`, beyond every slot filled so far) keeps the slots linked.
   */
  lemma ConsArgsLinkedStore(m: seq<Cell>, g: nat, list: bool, lBase: nat, args: seq<nat>, i: nat,
                            loc: nat, x: nat, v: Cell)
    requires i <= |args| && g <= loc <= x < lBase <= |m|
    requires i == 0 || ArgSlot(g, list, i - 1) < loc
    requires forall k :: 0 <= k < |args| ==> lBase <= args[k] < |m|
    requires RefsOk(m, g, loc, lBase)
    requires ConsArgsLinked(m, g, list, args, i)
    ensures ConsArgsLinked(m[x := v], g, list, args, i)
  {
    var m' := m[x := v];
    forall r | 0 <= r < |m| && (r < loc || (lBase <= r && !m[r].Var?))
      ensures LinkValI(m', r) == LinkValI(m, r)
    {
      LinkValStoreElsewhere(m, m', g, loc, lBase, x, r);
    }
    ConsArgsLinkedKeep(m, m', g, list, lBase, args, i, loc);
  }

  /**
   * Once every slot is filled: a slot whose handle held a value holds
   * that value, and the cells outside the new structure that changed are
   * plain variables among the handles.
   */
  lemma ConsArgsValues(m0: seq<Cell>, m: seq<Cell>, g: nat, list: bool, lBase: nat, args: seq<nat>)
    requires |m| == |m0| && StructEnd(g, list, |args|) <= lBase <= |m|
    requires forall k :: 0 <= k < |args| ==> lBase <= args[k] < |m|
    requires RefsOk(m0, g, g, lBase)
    requires ConsArgsLinked(m, g, list, args, |args|)
    requires ConsArgsFrame(m0, m, g, StructEnd(g, list, |args|), args, |args|)
    ensures forall k :: 0 <= k < |args| && !m0[args[k]].Var? ==>
              LinkValI(m, ArgSlot(g, list, k)) == LinkValI(m0, args[k])
    ensures forall x :: 0 <= x < |m| && !(g <= x < StructEnd(g, list, |args|)) && !(m0[x].Var? && x in args) ==>
              m[x] == m0[x]
  {
    assert args[..|args|] == args;
    forall x | 0 <= x < |m| && !(g <= x < StructEnd(g, list, |args|)) && !(m0[x].Var? && x in args)
      ensures m[x] == m0[x]
    {
      InPrefixIsIn(args, |args|, x);
    }
    forall k | 0 <= k < |args| && !m0[args[k]].Var?
      ensures LinkValI(m, ArgSlot(g, list, k)) == LinkValI(m0, args[k])
    {
      ConsArgsLinkedAt(m, g, list, args, |args|, k);
      var p := args[k];
      assert !Consumed(m0, args, |args|, p);
      assert m[p] == m0[p];
      if m0[p].Ref? {
        assert RefOkAt(m0, g, g, lBase, p);
        var a := m0[p].addr;
        DerefUnchangedBelow(m0, m, g, lBase, a);
        assert Deref(m, p) == Deref(m, a) && Deref(m0, p) == Deref(m0, a);
        assert m[Deref(m0, a)] == m0[Deref(m0, a)];
      } else {
        assert Deref(m, p) == p == Deref(m0, p);
      }
    }
  }

  /**
   * With references from the global stack below g going only below g,
   * dereferencing from there is unchanged while those cells are.
   */
  lemma {:induction false} DerefUnchangedBelow(m0: seq<Cell>, m: seq<Cell>, g: nat, lBase: nat, p: nat)
    requires RefsOk(m0, g, g, lBase) && |m| == |m0| && p < g <= |m0|
    requires forall q :: 0 <= q < g ==> m[q] == m0[q]
    ensures Deref(m, p) == Deref(m0, p) && Deref(m0, p) < g
    decreases p
  {
    if m0[p].Ref? {
      assert RefOkAt(m0, g, g, lBase, p);
      if m0[p].addr < p {
        DerefUnchangedBelow(m0, m, g, lBase, m0[p].addr);
      }
    }
  }

  /**
   * Storing the new structure into a local cell x keeps every slot linked
   * to its handle (other than x) and keeps the values copied.
   */
  lemma ConsArgsStoreHandle(m0: seq<Cell>, m: seq<Cell>, up: nat, g: nat, list: bool, lBase: nat, x: nat, c: Cell,
                            args: seq<nat>)
    requires |args| > 0 && RefsOk(m, up, up, lBase) && ArgSlot(g, list, |args| - 1) < up <= lBase <= x < |m|
    requires |m0| == |m|
    requires forall k :: 0 <= k < |args| ==> lBase <= args[k] < |m|
    requires ConsArgsLinked(m, g, list, args, |args|)
    requires forall k :: 0 <= k < |args| && !m0[args[k]].Var? ==> LinkValI(m, ArgSlot(g, list, k)) == LinkValI(m0, args[k])
    ensures forall k :: 0 <= k < |args| && args[k] != x ==>
              SameTerm(m[x := c], ArgSlot(g, list, k), args[k])
              && (!m0[args[k]].Var? ==> LinkValI(m[x := c], ArgSlot(g, list, k)) == LinkValI(m0, args[k]))
  {
    forall k | 0 <= k < |args| && args[k] != x
      ensures SameTerm(m[x := c], ArgSlot(g, list, k), args[k])
      ensures !m0[args[k]].Var? ==> LinkValI(m[x := c], ArgSlot(g, list, k)) == LinkValI(m0, args[k])
    {
      ConsArgsLinkedAt(m, g, list, args, |args|, k);
      SameTermStoreElsewhere(m, up, lBase, x, c, ArgSlot(g, list, k), args[k]);
      LinkValStoreElsewhere(m, m[x := c], up, up, lBase, x, ArgSlot(g, list, k));
    }
  }

  /*****************************************************************
   * The cells the argument loops produce
   *****************************************************************/

  /** The end of the part of the structure at g written after i slots: the functor and i arguments, or i list cells. */
  function StructEnd(g: nat, list: bool, i: nat): nat {
    if list then g + 3 * i else g + 1 + i
  }

  /**
   * The cells after i rounds of the loop, started from m.  A compound's
   * round is one bindConsVal(); a list's writes the functor '[|]', binds
   * the head and writes the tail: the next cell, or [] for the last one.
   */
  function FillM(m: seq<Cell>, g: nat, list: bool, args: seq<nat>, i: nat): (r: seq<Cell>)
    requires i <= |args| && StructEnd(g, list, |args|) <= |m|
    requires forall k :: 0 <= k < |args| ==> args[k] < |m|
    ensures |r| == |m|
    decreases i
  {
    if i == 0 then m
    else
      var k := i - 1;
      var m' := FillM(m, g, list, args, k);
      if list then
        ListRound(m', g, args, k)
      else BindConsValM(m', g + 1 + k, args[k])
  }


  /** The first two writes of list round k: the functor '[|]', then the head bound to args[k]. */
  function ListRoundA(r: seq<Cell>, g: nat, k: nat): (a: seq<Cell>)
    requires ConsCell(g, k) < |r|
    ensures |a| == |r|
  {
    r[ConsCell(g, k) := FUNCTOR_DOT2]
  }

  function ListRoundB(r: seq<Cell>, g: nat, args: seq<nat>, k: nat): (b: seq<Cell>)
    requires k < |args| && ConsCell(g, k) + 1 < |r| && args[k] < |r|
    ensures |b| == |r|
  {
    BindConsValM(ListRoundA(r, g, k), ConsCell(g, k) + 1, args[k])
  }

  /** The three words of list cell k written over r: '[|]', the head bound to args[k], the tail. */
  function ListRound(r: seq<Cell>, g: nat, args: seq<nat>, k: nat): (c: seq<Cell>)
    requires k < |args| && g + 3 * |args| <= |r| && args[k] < |r|
    ensures |c| == |r|
  {
    ListRoundB(r, g, args, k)[ConsCell(g, k) + 2 := ListTail(g, |args|, k)]
  }

  lemma ListRoundARefs(r: seq<Cell>, g: nat, lBase: nat, k: nat)
    requires ConsCell(g, k) < lBase <= |r|
    requires RefsOk(r, g, ConsCell(g, k), lBase) && LocalNoAttVar(r, lBase)
    ensures RefsOk(ListRoundA(r, g, k), g, ConsCell(g, k) + 1, lBase) && LocalNoAttVar(ListRoundA(r, g, k), lBase)
  {
    WritePreservesRefs(r, g, ConsCell(g, k), lBase, ConsCell(g, k), FUNCTOR_DOT2);
    RefsOkWeaken(ListRoundA(r, g, k), g, ConsCell(g, k), g, ConsCell(g, k) + 1, lBase);
  }

  lemma ListRoundBRefs(r: seq<Cell>, g: nat, lBase: nat, args: seq<nat>, k: nat)
    requires k < |args| && ConsCell(g, k) + 1 < lBase <= args[k] < |r|
    requires RefsOk(r, g, ConsCell(g, k), lBase) && LocalNoAttVar(r, lBase)
    ensures var b := ListRoundB(r, g, args, k);
            RefsOk(b, g, ConsCell(g, k) + 2, lBase) && LocalNoAttVar(b, lBase)
  {
    ListRoundARefs(r, g, lBase, k);
    BindConsValFacts(ListRoundA(r, g, k), g, lBase, ConsCell(g, k) + 1, args[k]);
  }

  /** The invariant survives the three writes of a list round. */
  lemma ListRoundRefs(r: seq<Cell>, g: nat, lBase: nat, args: seq<nat>, k: nat)
    requires k < |args| && g + 3 * |args| <= lBase <= |r|
    requires forall j :: 0 <= j < |args| ==> lBase <= args[j] < |r|
    requires RefsOk(r, g, ConsCell(g, k), lBase) && LocalNoAttVar(r, lBase)
    ensures var c := ListRound(r, g, args, k);
            RefsOk(c, g, ConsCell(g, k) + 3, lBase) && LocalNoAttVar(c, lBase)
  {
    var b := ListRoundB(r, g, args, k);
    ListRoundBRefs(r, g, lBase, args, k);
    WritePreservesRefs(b, g, ConsCell(g, k) + 2, lBase, ConsCell(g, k) + 2, ListTail(g, |args|, k));
    RefsOkWeaken(ListRound(r, g, args, k), g, ConsCell(g, k) + 2, g, ConsCell(g, k) + 3, lBase);
  }

  /** After i rounds the invariant holds up to the end of what has been written. */
  lemma {:induction false} FillRefs(m: seq<Cell>, g: nat, list: bool, lBase: nat, args: seq<nat>, i: nat)
    requires i <= |args| && StructEnd(g, list, |args|) <= lBase <= |m|
    requires forall j :: 0 <= j < |args| ==> lBase <= args[j] < |m|
    requires RefsOk(m, g, StructEnd(g, list, 0), lBase) && LocalNoAttVar(m, lBase)
    ensures var r := FillM(m, g, list, args, i);
            RefsOk(r, g, StructEnd(g, list, i), lBase) && LocalNoAttVar(r, lBase)
    decreases i
  {
    if i > 0 {
      FillRefs(m, g, list, lBase, args, i - 1);
      FillRefsStep(m, g, list, lBase, args, i - 1);
    }
  }

  lemma FillRefsStep(m: seq<Cell>, g: nat, list: bool, lBase: nat, args: seq<nat>, k: nat)
    requires k < |args| && StructEnd(g, list, |args|) <= lBase <= |m|
    requires forall j :: 0 <= j < |args| ==> lBase <= args[j] < |m|
    requires var r := FillM(m, g, list, args, k);
             RefsOk(r, g, StructEnd(g, list, k), lBase) && LocalNoAttVar(r, lBase)
    ensures var c := FillM(m, g, list, args, k + 1);
            RefsOk(c, g, StructEnd(g, list, k + 1), lBase) && LocalNoAttVar(c, lBase)
  {
    var r := FillM(m, g, list, args, k);
    if list {
      ListRoundRefs(r, g, lBase, args, k);
    } else {
      BindConsValFacts(r, g, lBase, g + 1 + k, args[k]);
    }
  }

  /** A list round keeps the heads filled so far linked, and links head k. */
  lemma ListRoundLinked(r: seq<Cell>, g: nat, lBase: nat, args: seq<nat>, k: nat)
    requires k < |args| && g + 3 * |args| <= lBase <= |r|
    requires forall j :: 0 <= j < |args| ==> lBase <= args[j] < |r|
    requires RefsOk(r, g, ConsCell(g, k), lBase) && LocalNoAttVar(r, lBase)
    requires ConsArgsLinked(r, g, true, args, k)
    ensures ConsArgsLinked(ListRound(r, g, args, k), g, true, args, k + 1)
  {
    ListRoundHeadLinked(r, g, lBase, args, k);
    ListRoundBRefs(r, g, lBase, args, k);
    ConsArgsLinkedStore(ListRoundB(r, g, args, k), g, true, lBase, args, k + 1,
                        ConsCell(g, k) + 2, ConsCell(g, k) + 2, ListTail(g, |args|, k));
  }

  lemma ListRoundHeadLinked(r: seq<Cell>, g: nat, lBase: nat, args: seq<nat>, k: nat)
    requires k < |args| && g + 3 * |args| <= lBase <= |r|
    requires forall j :: 0 <= j < |args| ==> lBase <= args[j] < |r|
    requires RefsOk(r, g, ConsCell(g, k), lBase) && LocalNoAttVar(r, lBase)
    requires ConsArgsLinked(r, g, true, args, k)
    ensures ConsArgsLinked(ListRoundB(r, g, args, k), g, true, args, k + 1)
  {
    ConsArgsLinkedStore(r, g, true, lBase, args, k, ConsCell(g, k), ConsCell(g, k), FUNCTOR_DOT2);
    ListRoundARefs(r, g, lBase, k);
    ConsArgsLinkedStep(ListRoundA(r, g, k), g, true, lBase, args, k);
  }

  /** After i rounds every filled slot is bound to the term of its handle. */
  lemma {:induction false} FillLinked(m: seq<Cell>, g: nat, list: bool, lBase: nat, args: seq<nat>, i: nat)
    requires i <= |args| && StructEnd(g, list, |args|) <= lBase <= |m|
    requires forall j :: 0 <= j < |args| ==> lBase <= args[j] < |m|
    requires RefsOk(m, g, StructEnd(g, list, 0), lBase) && LocalNoAttVar(m, lBase)
    ensures ConsArgsLinked(FillM(m, g, list, args, i), g, list, args, i)
    decreases i
  {
    if i > 0 {
      FillLinked(m, g, list, lBase, args, i - 1);
      FillLinkedStep(m, g, list, lBase, args, i - 1);
    }
  }

  lemma FillLinkedStep(m: seq<Cell>, g: nat, list: bool, lBase: nat, args: seq<nat>, k: nat)
    requires k < |args| && StructEnd(g, list, |args|) <= lBase <= |m|
    requires forall j :: 0 <= j < |args| ==> lBase <= args[j] < |m|
    requires RefsOk(m, g, StructEnd(g, list, 0), lBase) && LocalNoAttVar(m, lBase)
    requires ConsArgsLinked(FillM(m, g, list, args, k), g, list, args, k)
    ensures ConsArgsLinked(FillM(m, g, list, args, k + 1), g, list, args, k + 1)
  {
    FillRefs(m, g, list, lBase, args, k);
    if list {
      ListRoundLinked(FillM(m, g, list, args, k), g, lBase, args, k);
    } else {
      ConsArgsLinkedStep(FillM(m, g, list, args, k), g, false, lBase, args, k);
    }
  }

  /** A list round changes only the three words of list cell k and the handle it consumes. */
  lemma ListRoundFrame(m0: seq<Cell>, r: seq<Cell>, g: nat, lBase: nat, args: seq<nat>, k: nat)
    requires |r| == |m0| && k < |args| && g + 3 * |args| <= lBase <= |r|
    requires forall j :: 0 <= j < |args| ==> lBase <= args[j] < |r|
    requires RefsOk(r, g, ConsCell(g, k), lBase) && LocalNoAttVar(r, lBase)
    requires ConsArgsFrame(m0, r, g, ConsCell(g, k), args, k)
    ensures ConsArgsFrame(m0, ListRound(r, g, args, k), g, ConsCell(g, k) + 3, args, k + 1)
  {
    var a := ListRoundA(r, g, k);
    ListRoundARefs(r, g, lBase, k);
    assert ConsArgsFrame(m0, a, g, ConsCell(g, k) + 1, args, k);
    ConsArgsFrameStep(m0, a, g, ConsCell(g, k) + 1, lBase, args, k);
  }

  /** After i rounds only the cells written and the consumed handles have changed. */
  lemma {:induction false} FillFrame(m0: seq<Cell>, m: seq<Cell>, g: nat, list: bool, lBase: nat, args: seq<nat>, i: nat)
    requires |m| == |m0| && i <= |args| && StructEnd(g, list, |args|) <= lBase <= |m|
    requires forall j :: 0 <= j < |args| ==> lBase <= args[j] < |m|
    requires RefsOk(m, g, StructEnd(g, list, 0), lBase) && LocalNoAttVar(m, lBase)
    requires ConsArgsFrame(m0, m, g, StructEnd(g, list, 0), args, 0)
    ensures ConsArgsFrame(m0, FillM(m, g, list, args, i), g, StructEnd(g, list, i), args, i)
    decreases i
  {
    if i > 0 {
      FillFrame(m0, m, g, list, lBase, args, i - 1);
      FillFrameStep(m0, m, g, list, lBase, args, i - 1);
    }
  }

  lemma FillFrameStep(m0: seq<Cell>, m: seq<Cell>, g: nat, list: bool, lBase: nat, args: seq<nat>, k: nat)
    requires |m| == |m0| && k < |args| && StructEnd(g, list, |args|) <= lBase <= |m|
    requires forall j :: 0 <= j < |args| ==> lBase <= args[j] < |m|
    requires RefsOk(m, g, StructEnd(g, list, 0), lBase) && LocalNoAttVar(m, lBase)
    requires ConsArgsFrame(m0, FillM(m, g, list, args, k), g, StructEnd(g, list, k), args, k)
    ensures ConsArgsFrame(m0, FillM(m, g, list, args, k + 1), g, StructEnd(g, list, k + 1), args, k + 1)
  {
    FillRefs(m, g, list, lBase, args, k);
    if list {
      ListRoundFrame(m0, FillM(m, g, list, args, k), g, lBase, args, k);
    } else {
      ConsArgsFrameStep(m0, FillM(m, g, list, args, k), g, g + 1 + k, lBase, args, k);
    }
  }

  /** A list round completes list cell k and leaves the earlier ones alone. */
  lemma ListRoundPrefix(r: seq<Cell>, g: nat, args: seq<nat>, k: nat)
    requires k < |args| && g + 3 * |args| <= |r|
    requires forall j :: 0 <= j < |args| ==> args[j] < |r|
    requires ListPrefix(r, g, |args|, k)
    ensures ListPrefix(ListRound(r, g, args, k), g, |args|, k + 1)
  {
    var C := ConsCell(g, k);
    var a := ListRoundA(r, g, k);
    var c := ListRound(r, g, args, k);
    forall x | 0 <= x < C
      ensures c[x] == r[x]
    {
      BindConsValBelow(a, C + 1, args[k], x);
    }
    ListPrefixKeep(r, c, g, |args|, k);
    BindConsValBelow(a, C + 1, args[k], C);
  }

  /** After i list rounds the first i cells are laid out. */
  lemma {:induction false} FillPrefix(m: seq<Cell>, g: nat, args: seq<nat>, i: nat)
    requires i <= |args| && StructEnd(g, true, |args|) <= |m|
    requires forall j :: 0 <= j < |args| ==> args[j] < |m|
    ensures ListPrefix(FillM(m, g, true, args, i), g, |args|, i)
    decreases i
  {
    if i > 0 {
      FillPrefix(m, g, args, i - 1);
      ListRoundPrefix(FillM(m, g, true, args, i - 1), g, args, i - 1);
    }
  }

  /** In a compound the functor cell g is never overwritten. */
  lemma {:induction false} FillKeepsFunctor(m: seq<Cell>, g: nat, args: seq<nat>, i: nat)
    requires i <= |args| && StructEnd(g, false, |args|) <= |m|
    requires forall j :: 0 <= j < |args| ==> args[j] < |m|
    ensures FillM(m, g, false, args, i)[g] == m[g]
    decreases i
  {
    if i > 0 {
      FillKeepsFunctor(m, g, args, i - 1);
      BindConsValBelow(FillM(m, g, false, args, i - 1), g + i, args[i - 1], g);
    }
  }

  /**
   * The whole of cons_functorv(): from m0, with the functor written at g
   * (m1), the filled structure keeps the invariant, links argument k to
   * handle args[k], and changes nothing but the new cells and the
   * variables the handles held.
   */
  lemma ConsStructFacts(m0: seq<Cell>, m1: seq<Cell>, g: nat, lBase: nat, args: seq<nat>)
    requires |m1| == |m0| && g + 1 + |args| <= lBase <= |m0|
    requires forall j :: 0 <= j < |args| ==> lBase <= args[j] < |m0|
    requires RefsOk(m0, g, g, lBase) && RefsOk(m1, g, g + 1, lBase) && LocalNoAttVar(m1, lBase)
    requires forall x :: 0 <= x < |m0| && x != g ==> m1[x] == m0[x]
    ensures var m := FillM(m1, g, false, args, |args|);
            RefsOk(m, g, g + 1 + |args|, lBase) && LocalNoAttVar(m, lBase) && m[g] == m1[g]
            && ConsArgsLinked(m, g, false, args, |args|)
            && (forall k :: 0 <= k < |args| && !m0[args[k]].Var? ==>
                  LinkValI(m, ArgSlot(g, false, k)) == LinkValI(m0, args[k]))
            && (forall x :: 0 <= x < |m| && !(g <= x < g + 1 + |args|) && !(m0[x].Var? && x in args) ==>
                  m[x] == m0[x])
  {
    var n := |args|;
    FillRefs(m1, g, false, lBase, args, n);
    FillLinked(m1, g, false, lBase, args, n);
    assert ConsArgsFrame(m0, m1, g, g + 1, args, 0);
    FillFrame(m0, m1, g, false, lBase, args, n);
    FillKeepsFunctor(m1, g, args, n);
    ConsArgsValues(m0, FillM(m1, g, false, args, n), g, false, lBase, args);
  }

  /**
   * The whole loop of PL_cons_list_v(): the n list cells from g are laid
   * out as a proper list, head k linked to handle args[k], and nothing but
   * the new cells and the variables the handles held has changed.
   */
  lemma ConsListFacts(m0: seq<Cell>, g: nat, lBase: nat, args: seq<nat>)
    requires g + 3 * |args| <= lBase <= |m0|
    requires forall j :: 0 <= j < |args| ==> lBase <= args[j] < |m0|
    requires RefsOk(m0, g, g, lBase) && LocalNoAttVar(m0, lBase)
    ensures var m := FillM(m0, g, true, args, |args|);
            RefsOk(m, g, g + 3 * |args|, lBase) && LocalNoAttVar(m, lBase)
            && ListLayout(m, g, |args|)
            && ConsArgsLinked(m, g, true, args, |args|)
            && (forall k :: 0 <= k < |args| && !m0[args[k]].Var? ==>
                  LinkValI(m, ArgSlot(g, true, k)) == LinkValI(m0, args[k]))
            && (forall x :: 0 <= x < |m| && !(g <= x < g + 3 * |args|) && !(m0[x].Var? && x in args) ==>
                  m[x] == m0[x])
  {
    var n := |args|;
    FillRefs(m0, g, true, lBase, args, n);
    FillLinked(m0, g, true, lBase, args, n);
    assert ConsArgsFrame(m0, m0, g, g, args, 0);
    FillFrame(m0, m0, g, true, lBase, args, n);
    FillPrefix(m0, g, args, n);
    ConsArgsValues(m0, FillM(m0, g, true, args, n), g, true, lBase, args);
  }

  /*****************************************************************
   * PL_unify_list() (src/pl-fli.c:3633-3672)
   *****************************************************************/

  /**
   * The cell p denotes a list cell [H|T] below `top` whose head and tail
   * the cells xh and xt denote: what a successful PL_unify_list() leaves.
   */
  ghost predicate ListDenoted(m: seq<Cell>, p: nat, xh: nat, xt: nat, top: nat)
    requires p < |m| && xh < |m| && xt < |m| && top <= |m|
  {
    var c := LinkValI(m, p);
    HasFunctor(m, c, "[|]", 2) && c.addr + 2 < top
    && SameTerm(m, xh, c.addr + 1) && SameTerm(m, xt, c.addr + 2)
  }

  /** The cells after the canBind() branch: [_|_] at g, xh and xt on its variables, q bound to it. */
  function NewListM(m: seq<Cell>, g: nat, xh: nat, xt: nat, q: nat): (m': seq<Cell>)
    requires g + 2 < |m| && xh < |m| && xt < |m| && q < |m|
    ensures |m'| == |m|
  {
    m[g := FUNCTOR_DOT2][g + 1 := Var][g + 2 := Var][xh := Ref(g + 1)][xt := Ref(g + 2)][q := Compound(g)]
  }

  /** The cells after the isList() branch: xh and xt linked to the head and tail cells of the list cell at a. */
  function ListArgsM(m: seq<Cell>, a: nat, xh: nat, xt: nat): (m': seq<Cell>)
    requires a + 2 < |m| && xh < |m| && xt < |m|
    ensures |m'| == |m|
  {
    m[xh := LinkValI(m, a + 1)][xt := LinkValI(m, a + 2)]
  }

  /**
   * The canBind() branch succeeds in its purpose: when l, h and t are
   * three different local cells, l (whose chain ended at the unbound q)
   * now denotes the new list cell, h its head variable and t its tail.
   */
  lemma NewListDenoted(m: seq<Cell>, g: nat, lBase: nat, p: nat, q: nat, xh: nat, xt: nat)
    requires RefsOk(m, g, g, lBase) && g + 3 <= lBase
    requires lBase <= p < |m| && lBase <= xh < |m| && lBase <= xt < |m| && p != xh && p != xt && xh != xt
    requires q == Deref(m, p) && CanBind(m[q])
    ensures var m' := NewListM(m, g, xh, xt, q);
            LinkValI(m', p) == Compound(g) && ListDenoted(m', p, xh, xt, g + 3)
  {
    var m' := NewListM(m, g, xh, xt, q);
    NewListDerefKeeps(m, g, lBase, p, q, xh, xt);
    assert m'[g] == FUNCTOR_DOT2 && m'[g + 1] == Var && m'[g + 2] == Var;
    assert m'[xh] == Ref(g + 1) && m'[xt] == Ref(g + 2);
    assert Deref(m', xh) == g + 1;
    assert Deref(m', xt) == g + 2;
  }

  /** In the canBind() branch l's chain still ends at q, which now holds the new list cell. */
  lemma NewListDerefKeeps(m: seq<Cell>, g: nat, lBase: nat, p: nat, q: nat, xh: nat, xt: nat)
    requires RefsOk(m, g, g, lBase) && g + 3 <= lBase
    requires lBase <= p < |m| && lBase <= xh < |m| && lBase <= xt < |m| && p != xh && p != xt
    requires q == Deref(m, p) && CanBind(m[q])
    ensures (q < g || q == p) && Deref(NewListM(m, g, xh, xt, q), p) == q
  {
    DerefFacts(m, g, g, lBase, p);
    var m3 := m[g := FUNCTOR_DOT2][g + 1 := Var][g + 2 := Var][xh := Ref(g + 1)][xt := Ref(g + 2)];
    assert NewListM(m, g, xh, xt, q) == m3[q := Compound(g)];
    if m[p].Ref? {
      assert RefOkAt(m, g, g, lBase, p);
      var a := m[p].addr;
      DerefUnchangedBelow(m, m3, g, lBase, a);
      assert Deref(m3, p) == Deref(m3, a) == q;
      DerefStore(m3, q, Compound(g), p);
    }
  }

  /**
   * The isList() branch succeeds in its purpose: when l, h and t are
   * three different local cells and l denotes the list cell at a, l still
   * denotes it and h and t denote its head and its tail.
   */
  lemma ListArgsDenoted(m: seq<Cell>, up: nat, lBase: nat, a: nat, p: nat, xh: nat, xt: nat)
    requires RefsOk(m, up, up, lBase) && LocalNoAttVar(m, lBase) && a + 2 < up <= lBase
    requires lBase <= p < |m| && lBase <= xh < |m| && lBase <= xt < |m| && p != xh && p != xt && xh != xt
    requires LinkValI(m, p) == Compound(a) && m[a] == FUNCTOR_DOT2
    ensures var m' := ListArgsM(m, a, xh, xt);
            LinkValI(m', p) == Compound(a) && ListDenoted(m', p, xh, xt, up)
  {
    var m1 := m[xh := LinkValI(m, a + 1)];
    CopyLinkVal(m, up, lBase, xh, a + 1);
    WritePreservesRefs(m, up, up, lBase, xh, LinkValI(m, a + 1));
    LinkValStoreElsewhere(m, m1, up, up, lBase, xh, a + 2);
    LinkValStoreElsewhere(m, m1, up, up, lBase, xh, p);
    var m2 := m1[xt := LinkValI(m1, a + 2)];
    CopyLinkVal(m1, up, lBase, xt, a + 2);
    LinkValStoreElsewhere(m1, m2, up, up, lBase, xt, xh);
    LinkValStoreElsewhere(m1, m2, up, up, lBase, xt, a + 1);
    LinkValStoreElsewhere(m1, m2, up, up, lBase, xt, p);
    assert m2 == ListArgsM(m, a, xh, xt);
  }

  /*****************************************************************
   * PL_put_dict() (src/pl-fli.c:4207-4256)
   *****************************************************************/

  /** is_dict_key(): the keys of a dict are atoms and small integers. */
  predicate IsDictKey(w: Cell) { w.Atom? || w.TaggedInt? }

  /** What PL_put_dict() accepts: no tag or an atom tag, and dict keys only. */
  predicate DictInputOk(tag: Option<Cell>, keys: seq<Cell>) {
    (tag.None? || tag.value.Atom?) && forall k :: 0 <= k < |keys| ==> IsDictKey(keys[k])
  }

  /** The tag cell: the tag atom, or a fresh variable when there is none. */
  function TagCell(tag: Option<Cell>): Cell { if tag.Some? then tag.value else Var }

  /** The value cell of pair k of the dict at g; its key follows it. */
  function DictValueCell(g: nat, k: nat): nat { g + 2 + 2 * k }

  /** The first i value-key pairs of the dict at g: linkValI() of each value handle in m0, then the key. */
  ghost predicate DictPairs(m: seq<Cell>, g: nat, keys: seq<Cell>, m0: seq<Cell>, vals: seq<nat>, i: nat)
    requires i <= |keys| == |vals| && DictValueCell(g, i) <= |m|
    requires forall k :: 0 <= k < |vals| ==> vals[k] < |m0|
  {
    forall k :: 0 <= k < i ==>
      m[DictValueCell(g, k)] == LinkValI(m0, vals[k]) && m[DictValueCell(g, k) + 1] == keys[k]
  }

  /** Cells written above g leave a local cell's term alone. */
  lemma LinkValKeptAbove(m0: seq<Cell>, m: seq<Cell>, g: nat, lBase: nat, p: nat)
    requires RefsOk(m0, g, g, lBase) && |m| == |m0| && g <= lBase <= p < |m0|
    requires forall y :: 0 <= y < g ==> m[y] == m0[y]
    requires m[p] == m0[p]
    ensures LinkValI(m, p) == LinkValI(m0, p)
  {
    if m0[p].Ref? {
      assert RefOkAt(m0, g, g, lBase, p);
      DerefUnchangedBelow(m0, m, g, lBase, m0[p].addr);
    }
  }

  /** A cell holding linkValI(p) denotes p's term. */
  lemma LinkValCopied(m: seq<Cell>, up: nat, loc: nat, lBase: nat, x: nat, p: nat)
    requires RefsOk(m, up, loc, lBase) && up <= loc && x < |m| && p < |m|
    requires m[x] == LinkValI(m, p)
    ensures SameTerm(m, x, p)
  {
    DerefFacts(m, up, loc, lBase, p);
    var q := Deref(m, p);
    assert Deref(m, q) == q;
    if CanBind(m[q]) {
      assert Deref(m, x) == q;
    } else {
      assert Deref(m, x) == x;
    }
  }

  /** Writing pair i keeps the pairs before it and adds it. */
  lemma DictPairsStep(m: seq<Cell>, g: nat, keys: seq<Cell>, m0: seq<Cell>, vals: seq<nat>, i: nat)
    requires i < |keys| == |vals| && DictValueCell(g, i + 1) <= |m|
    requires forall k :: 0 <= k < |vals| ==> vals[k] < |m0|
    requires DictPairs(m, g, keys, m0, vals, i)
    ensures var x := DictValueCell(g, i);
            DictPairs(m[x := LinkValI(m0, vals[i])][x + 1 := keys[i]], g, keys, m0, vals, i + 1)
  {
  }

  /**
   * Once the pairs are written, each value cell of the dict denotes the
   * term of its value handle (as the handle stands after globalization).
   */
  lemma DictValuesDenoted(m0: seq<Cell>, m: seq<Cell>, g: nat, lBase: nat, keys: seq<Cell>, vals: seq<nat>)
    requires RefsOk(m0, g, g, lBase) && RefsOk(m, g, g, lBase) && |m| == |m0|
    requires |vals| == |keys| && DictValueCell(g, |keys|) <= lBase <= |m0|
    requires forall k :: 0 <= k < |vals| ==> lBase <= vals[k] < |m0| && m[vals[k]] == m0[vals[k]]
    requires forall y :: 0 <= y < g ==> m[y] == m0[y]
    requires DictPairs(m, g, keys, m0, vals, |keys|)
    ensures forall k :: 0 <= k < |keys| ==> SameTerm(m, DictValueCell(g, k), vals[k])
  {
    forall k | 0 <= k < |keys| ensures SameTerm(m, DictValueCell(g, k), vals[k]) {
      LinkValKeptAbove(m0, m, g, lBase, vals[k]);
      LinkValCopied(m, g, g, lBase, DictValueCell(g, k), vals[k]);
    }
  }
}
