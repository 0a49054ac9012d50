/*
 * Taking one node out of a singly linked list, which the hook lists of
 * src/pl-fli.c and the directory chains of src/os/pl-os.c both do: the
 * list is modelled as the sequence of its nodes, head first.
 */
module Seqs {

  /** The list with the first occurrence of f unlinked. */
  function RemoveFirst<T(==)>(s: seq<T>, f: T): (r: seq<T>)
    ensures f in s ==> |r| == |s| - 1
    ensures f !in s ==> r == s
  {
    if s == [] then []
    else if s[0] == f then s[1..]
    else [s[0]] + RemoveFirst(s[1..], f)
  }

  /** Unlinking the first f removes exactly its position and keeps the order of the rest. */
  lemma {:induction false} RemoveFirstSplit<T>(s: seq<T>, f: T, i: nat)
    requires i < |s| && s[i] == f && forall k :: 0 <= k < i ==> s[k] != f
    ensures RemoveFirst(s, f) == s[..i] + s[i + 1..]
  {
    if i > 0 {
      var t := s[1..];
      RemoveFirstSplit(t, f, i - 1);
      assert t[..i - 1] == s[1..i];
      assert t[i..] == s[i + 1..];
      assert s[..i] == [s[0]] + s[1..i];
    }
  }

  /** ... and each other node as often as before. */
  lemma RemoveFirstMultiset<T>(s: seq<T>, f: T, i: nat)
    requires i < |s| && s[i] == f && forall k :: 0 <= k < i ==> s[k] != f
    ensures multiset(RemoveFirst(s, f)) == multiset(s) - multiset{f}
  {
    RemoveFirstSplit(s, f, i);
    var left, right := s[..i], s[i + 1..];
    assert s == left + [f] + right;
    assert multiset(s) == multiset(left) + multiset{f} + multiset(right);
    assert multiset(RemoveFirst(s, f)) == multiset(left) + multiset(right);
  }

  /** Every node other than f is in the list after the unlink exactly when it was before. */
  lemma {:induction false} RemoveFirstKeepsOthers<T>(s: seq<T>, f: T, x: T)
    requires x != f
    ensures x in RemoveFirst(s, f) <==> x in s
  {
    if s != [] && s[0] != f {
      RemoveFirstKeepsOthers(s[1..], f, x);
      assert s == [s[0]] + s[1..];
    }
  }
}
