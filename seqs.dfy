/** Sequence helpers shared by the link layer and the list layer. */
module Seqs {

  /** `s` read back to front. */
  function Reverse<X>(s: seq<X>): seq<X>
  {
    seq(|s|, i requires 0 <= i < |s| => s[|s| - 1 - i])
  }

  /** `s` with `x` placed at position `i`; the elements from `i` on move up by one. */
  function Insert<X>(s: seq<X>, i: int, x: X): seq<X>
    requires 0 <= i <= |s|
  {
    s[..i] + [x] + s[i..]
  }

  /** `s` without its element at position `i`. */
  function Delete<X>(s: seq<X>, i: int): seq<X>
    requires 0 <= i < |s|
  {
    s[..i] + s[i + 1..]
  }

  lemma ReverseReverse<X>(s: seq<X>)
    ensures Reverse(Reverse(s)) == s
  {
  }

  lemma ReversePrepend<X>(x: X, s: seq<X>)
    ensures Reverse([x] + s) == Reverse(s) + [x]
  {
  }

  /** Inserting where a sequence splits puts the element between the halves. */
  lemma InsertSplit<X>(a: seq<X>, b: seq<X>, x: X)
    ensures Insert(a + b, |a|, x) == a + [x] + b
  {
    assert (a + b)[..|a|] == a && (a + b)[|a|..] == b;
  }

  /** Deleting the element between two halves joins the halves. */
  lemma DeleteSplit<X>(a: seq<X>, x: X, b: seq<X>)
    ensures Delete(a + [x] + b, |a|) == a + b
  {
    assert (a + [x] + b)[..|a|] == a && (a + [x] + b)[|a| + 1..] == b;
  }

  /** Inserting at either end is prepending or appending. */
  lemma InsertAtEdges<X>(s: seq<X>, x: X)
    ensures Insert(s, 0, x) == [x] + s
    ensures Insert(s, |s|, x) == s + [x]
  {
    assert s[..0] == [] && s[0..] == s;
    assert s[..|s|] == s && s[|s|..] == [];
  }

  /** Deleting at either end drops the first or the last element. */
  lemma DeleteAtEdges<X>(s: seq<X>)
    requires |s| > 0
    ensures Delete(s, 0) == s[1..]
    ensures Delete(s, |s| - 1) == s[..|s| - 1]
  {
    assert s[..0] == [];
    assert s[|s|..] == [];
  }

  /** Where each element of `s` lands after an insertion at `i`. */
  lemma InsertIndex<X>(s: seq<X>, i: int, x: X)
    requires 0 <= i <= |s|
    ensures |Insert(s, i, x)| == |s| + 1
    ensures forall k :: 0 <= k < i ==> Insert(s, i, x)[k] == s[k]
    ensures Insert(s, i, x)[i] == x
    ensures forall k :: i < k <= |s| ==> Insert(s, i, x)[k] == s[k - 1]
  {
  }

  /** Where each element of `s` lands after the deletion at `i`. */
  lemma DeleteIndex<X>(s: seq<X>, i: int)
    requires 0 <= i < |s|
    ensures |Delete(s, i)| == |s| - 1
    ensures forall k :: 0 <= k < i ==> Delete(s, i)[k] == s[k]
    ensures forall k :: i <= k < |s| - 1 ==> Delete(s, i)[k] == s[k + 1]
  {
  }

  /** Inserting strictly inside a sequence keeps both of its ends. */
  lemma InsertInner<X>(s: seq<X>, i: int, x: X)
    requires 0 < i < |s|
    ensures Insert(s, i, x)[0] == s[0] && Insert(s, i, x)[|s|] == s[|s| - 1]
  {
    InsertIndex(s, i, x);
  }

  /** Deleting strictly inside a sequence keeps both of its ends. */
  lemma DeleteInner<X>(s: seq<X>, i: int)
    requires 0 < i < |s| - 1
    ensures Delete(s, i)[0] == s[0] && Delete(s, i)[|s| - 2] == s[|s| - 1]
  {
    DeleteIndex(s, i);
  }

  /** Dropping the first element of the reversal is reversing without the last element. */
  lemma ReverseDropFirst<X>(s: seq<X>)
    requires |s| > 0
    ensures Reverse(s)[1..] == Reverse(s[..|s| - 1])
  {
  }
}
