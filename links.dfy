/**
 * The node storage layer of the XOR-linked list: a node is a heap block whose
 * first word ("both") holds the XOR of the addresses of its two neighbours.
 * The heap is the map `link` from a live node's address to its "both" word;
 * address 0 is the null pointer.  A chain `s` lists the live nodes front to
 * back, and `Linked(s, link)` is the invariant every list operation keeps.
 */
module XorLinks {
  import opened Seqs

  /**
   * The bitwise exclusive or of two unsigned words: bit by bit from the
   * lowest, equal bits give 0 and different bits give 1.
   */
  function BitXor(x: nat, y: nat): nat
    decreases x + y
  {
    if x == 0 then y
    else if y == 0 then x
    else 2 * BitXor(x / 2, y / 2) + (if x % 2 == y % 2 then 0 else 1)
  }

  /** A node address: a pointer's bits read as a `size_t`; `Null` is the null pointer. */
  datatype Addr = Addr(bits: nat)

  const Null: Addr := Addr(0)

  /** `_xor_pointers`: the pointer whose bits are the bitwise XOR of the two addresses' bits. */
  function Xor(a: Addr, b: Addr): (r: Addr)
    ensures a == Null ==> r == b
    ensures b == Null ==> r == a
    ensures a == b ==> r == Null
  {
    BitXorSelf(a.bits);
    Addr(BitXor(a.bits, b.bits))
  }

  lemma {:induction false} BitXorCommutes(x: nat, y: nat)
    ensures BitXor(x, y) == BitXor(y, x)
    decreases x + y
  {
    if x != 0 && y != 0 {
      BitXorCommutes(x / 2, y / 2);
    }
  }

  lemma {:induction false} BitXorCancel(x: nat, y: nat)
    ensures BitXor(x, BitXor(x, y)) == y
    decreases x + y
  {
    if x != 0 && y != 0 {
      var z := BitXor(x / 2, y / 2);
      BitXorCancel(x / 2, y / 2);
      var b := if x % 2 == y % 2 then 0 else 1;
      assert BitXor(x, y) == 2 * z + b;
      if 2 * z + b == 0 {
        assert z == 0 && b == 0;
        assert y / 2 == x / 2 by {
          assert BitXor(x / 2, 0) == x / 2;
        }
      } else {
        assert (2 * z + b) / 2 == z && (2 * z + b) % 2 == b;
      }
    } else if x != 0 {
      BitXorSelf(x);
    }
  }

  lemma {:induction false} BitXorSelf(x: nat)
    ensures BitXor(x, x) == 0
    decreases x
  {
    if x != 0 {
      BitXorSelf(x / 2);
    }
  }

  /** The exclusive or of two `k`-bit words is a `k`-bit word, so no truncation is needed. */
  lemma {:induction false} BitXorWord(x: nat, y: nat, k: nat)
    requires x < Pow2(k) && y < Pow2(k)
    ensures BitXor(x, y) < Pow2(k)
    decreases x + y
  {
    if x != 0 && y != 0 {
      assert k > 0;
      BitXorWord(x / 2, y / 2, k - 1);
    }
  }

  function Pow2(k: nat): nat
  {
    if k == 0 then 1 else 2 * Pow2(k - 1)
  }

  /** XOR-ing a "both" word with one neighbour recovers the other. */
  lemma XorCancel(a: Addr, b: Addr)
    ensures Xor(a, Xor(a, b)) == b && Xor(b, Xor(a, b)) == a
  {
    BitXorCancel(a.bits, b.bits);
    BitXorCommutes(a.bits, b.bits);
    BitXorCancel(b.bits, a.bits);
  }

  /** XOR with the null pointer changes nothing. */
  lemma XorNull(a: Addr)
    ensures Xor(Null, a) == a && Xor(a, Null) == a
  {
  }

  lemma XorCommutes(a: Addr, b: Addr)
    ensures Xor(a, b) == Xor(b, a)
  {
    BitXorCommutes(a.bits, b.bits);
  }

  /** `_node_get_next`: the neighbour of `target` that is not `prev`, read from its "both" word. */
  function NodeNext(link: map<Addr, Addr>, target: Addr, prev: Addr): (next: Addr)
    requires target in link
    ensures Xor(prev, next) == link[target]
  {
    XorCancel(prev, link[target]);
    Xor(prev, link[target])
  }

  /** A traversal position: the node `it` and the node `prev` it was reached from. */
  datatype Cursor = Cursor(prev: Addr, it: Addr)

  /** One step of a traversal: `prev, it := it, next`. */
  function Advance(link: map<Addr, Addr>, c: Cursor): Cursor
    requires c.it in link
  {
    Cursor(c.it, NodeNext(link, c.it, c.prev))
  }

  /** The cursor after `k` steps, stopping early at an address that is not a live node. */
  ghost function Walk(link: map<Addr, Addr>, c: Cursor, k: nat): Cursor
    decreases k
  {
    if k == 0 || c.it !in link then c else Walk(link, Advance(link, c), k - 1)
  }

  /** The nodes visited by the first `k` steps of a traversal from `c`. */
  ghost function Visits(link: map<Addr, Addr>, c: Cursor, k: nat): seq<Addr>
    decreases k
  {
    if k == 0 || c.it !in link then [] else [c.it] + Visits(link, Advance(link, c), k - 1)
  }

  /** The neighbour before position `i` of the chain, null at the front. */
  function Before(s: seq<Addr>, i: int): Addr
    requires 0 <= i <= |s|
  {
    if i == 0 then Null else s[i - 1]
  }

  /** The neighbour after position `i` of the chain, null at the back. */
  function After(s: seq<Addr>, i: int): Addr
    requires 0 <= i < |s|
  {
    if i + 1 < |s| then s[i + 1] else Null
  }

  /** The "both" word the node at position `i` must hold. */
  function Both(s: seq<Addr>, i: int): Addr
    requires 0 <= i < |s|
  {
    Xor(Before(s, i), After(s, i))
  }

  /** A traversal from the front standing at position `i` (past the back when `i == |s|`). */
  function At(s: seq<Addr>, i: int): Cursor
    requires 0 <= i <= |s|
  {
    Cursor(Before(s, i), if i < |s| then s[i] else Null)
  }

  ghost predicate Distinct(s: seq<Addr>)
  {
    forall i, j :: 0 <= i < j < |s| ==> s[i] != s[j]
  }

  /**
   * The XOR-link invariant: the chain `s` holds distinct non-null addresses,
   * each of them a live node whose "both" word is the XOR of its neighbours
   * (a missing neighbour counting as null), and there are no other live
   * nodes (`LinkedKeys` derives this from the count).
   */
  ghost predicate Linked(s: seq<Addr>, link: map<Addr, Addr>)
  {
    && Distinct(s)
    && Null !in s
    && |link| == |s|
    && Words(s, link)
  }

  /** Each node of the chain is live and holds the XOR of its neighbours. */
  ghost predicate Words(s: seq<Addr>, link: map<Addr, Addr>)
  {
    && (forall i :: 0 <= i < |s| ==> s[i] in link)
    && (forall i {:trigger Both(s, i)} :: 0 <= i < |s| ==> link[s[i]] == Both(s, i))
  }

  /** Decoding one step from position `i` reaches position `i + 1`. */
  lemma StepAt(s: seq<Addr>, link: map<Addr, Addr>, i: int)
    requires Words(s, link) && 0 <= i < |s|
    ensures At(s, i).it in link && Advance(link, At(s, i)) == At(s, i + 1)
  {
    assert link[s[i]] == Both(s, i);
    XorCancel(Before(s, i), After(s, i));
  }

  /** `k` decoding steps from position `i` visit `s[i..i+k]` and stand at position `i + k`. */
  lemma {:induction false} WalkFrom(s: seq<Addr>, link: map<Addr, Addr>, i: int, k: nat)
    requires Words(s, link) && 0 <= i && i + k <= |s|
    ensures Walk(link, At(s, i), k) == At(s, i + k)
    ensures Visits(link, At(s, i), k) == s[i..i + k]
    decreases k
  {
    if k == 0 {
      assert s[i..i] == [];
    } else {
      var c := At(s, i);
      StepAt(s, link, i);
      WalkFrom(s, link, i + 1, k - 1);
      assert Walk(link, c, k) == Walk(link, Advance(link, c), k - 1);
      assert Visits(link, c, k) == [c.it] + Visits(link, Advance(link, c), k - 1);
      assert s[i..i + k] == [s[i]] + s[i + 1..i + k];
    }
  }

  /** The invariant does not depend on which end is called the front. */
  lemma LinkedReverse(s: seq<Addr>, link: map<Addr, Addr>)
    requires Linked(s, link)
    ensures Linked(Reverse(s), link)
  {
    var r, n := Reverse(s), |s|;
    assert Distinct(r) by {
      forall i, j | 0 <= i < j < n
        ensures r[i] != r[j]
      {
        assert r[i] == s[n - 1 - i] && r[j] == s[n - 1 - j];
      }
    }
    ReverseSameElements(s);
    forall i | 0 <= i < n
      ensures link[r[i]] == Both(r, i)
    {
      var k := n - 1 - i;
      assert r[i] == s[k];
      assert Before(r, i) == After(s, k);
      assert After(r, i) == Before(s, k);
      assert link[s[k]] == Both(s, k);
      XorCommutes(Before(s, k), After(s, k));
    }
  }

  lemma ReverseSameElements(s: seq<Addr>)
    ensures forall a :: a in Reverse(s) <==> a in s
  {
    var r, n := Reverse(s), |s|;
    forall a | a in s
      ensures a in r
    {
      var j :| 0 <= j < n && s[j] == a;
      assert r[n - 1 - j] == a;
    }
    forall a | a in r
      ensures a in s
    {
      var j :| 0 <= j < n && r[j] == a;
      assert s[n - 1 - j] == a;
    }
  }

  lemma LinkedReverseIff(s: seq<Addr>, link: map<Addr, Addr>)
    ensures Linked(s, link) <==> Linked(Reverse(s), link)
  {
    if Linked(s, link) {
      LinkedReverse(s, link);
    }
    if Linked(Reverse(s), link) {
      LinkedReverse(Reverse(s), link);
      ReverseReverse(s);
    }
  }

  function First(s: seq<Addr>): Addr
  {
    if s == [] then Null else s[0]
  }

  function Last(s: seq<Addr>): Addr
  {
    if s == [] then Null else s[|s| - 1]
  }

  /**
   * From either end, decoding `next = both ^ prev` with `prev` starting at
   * null visits exactly the chain's nodes, in order, and then stands past
   * the opposite end with no successor.
   */
  lemma DecodeFromEitherEnd(s: seq<Addr>, link: map<Addr, Addr>)
    requires Linked(s, link)
    ensures Visits(link, Cursor(Null, First(s)), |s|) == s
    ensures Walk(link, Cursor(Null, First(s)), |s|) == Cursor(Last(s), Null)
    ensures Visits(link, Cursor(Null, Last(s)), |s|) == Reverse(s)
    ensures Walk(link, Cursor(Null, Last(s)), |s|) == Cursor(First(s), Null)
  {
    DecodeFromFront(s, link);
    var r := Reverse(s);
    LinkedReverse(s, link);
    DecodeFromFront(r, link);
    assert First(r) == Last(s) && Last(r) == First(s);
  }

  lemma DecodeFromFront(s: seq<Addr>, link: map<Addr, Addr>)
    requires Linked(s, link)
    ensures Visits(link, Cursor(Null, First(s)), |s|) == s
    ensures Walk(link, Cursor(Null, First(s)), |s|) == Cursor(Last(s), Null)
  {
    WalkFrom(s, link, 0, |s|);
    assert s[0..|s|] == s;
    assert At(s, 0) == Cursor(Null, First(s));
    assert At(s, |s|) == Cursor(Last(s), Null);
  }

  /** The neighbours of every position after inserting `a` at position `j`. */
  lemma InsertNeighbours(s: seq<Addr>, j: int, a: Addr, i: int)
    requires 0 <= j <= |s| && 0 <= i <= |s|
    ensures var t := Insert(s, j, a);
      && |t| == |s| + 1
      && (i < j ==> t[i] == s[i] && Before(t, i) == Before(s, i))
      && (i + 1 < j ==> After(t, i) == After(s, i))
      && (i + 1 == j ==> After(t, i) == a)
      && (i == j ==> t[i] == a && Before(t, i) == Before(s, j))
      && (i == j < |s| ==> After(t, i) == s[j])
      && (i == j == |s| ==> After(t, i) == Null)
      && (j < i ==> t[i] == s[i - 1] && After(t, i) == After(s, i - 1))
      && (i == j + 1 ==> Before(t, i) == a)
      && (j + 1 < i ==> Before(t, i) == Before(s, i - 1))
  {
    InsertIndex(s, j, a);
  }

  /** The neighbours of every position after deleting position `m`. */
  lemma DeleteNeighbours(s: seq<Addr>, m: int, i: int)
    requires 0 <= m < |s| && 0 <= i < |s| - 1
    ensures var t := Delete(s, m);
      && |t| == |s| - 1
      && (i < m ==> t[i] == s[i] && Before(t, i) == Before(s, i))
      && (i + 1 < m ==> After(t, i) == After(s, i))
      && (i + 1 == m ==> After(t, i) == After(s, m))
      && (m <= i ==> t[i] == s[i + 1] && After(t, i) == After(s, i + 1))
      && (i == m ==> Before(t, i) == Before(s, m))
      && (m < i ==> Before(t, i) == Before(s, i + 1))
  {
    DeleteIndex(s, m);
  }

  /** Inserting a fresh non-null address keeps a chain's addresses distinct and non-null. */
  lemma InsertChain(s: seq<Addr>, j: int, a: Addr)
    requires Distinct(s) && Null !in s && 0 <= j <= |s|
    requires a != Null && a !in s
    ensures Distinct(Insert(s, j, a)) && Null !in Insert(s, j, a)
  {
    var t := Insert(s, j, a);
    InsertIndex(s, j, a);
    forall i, k | 0 <= i < k < |t|
      ensures t[i] != t[k]
    {
      if k < j {
      } else if k == j {
        assert t[i] == s[i];
      } else if i == j {
        assert t[k] == s[k - 1];
      } else if i < j {
        assert t[i] == s[i] && t[k] == s[k - 1];
      } else {
        assert t[i] == s[i - 1] && t[k] == s[k - 1];
      }
    }
    forall p | 0 <= p < |t|
      ensures t[p] != Null
    {
      if p < j {
        assert t[p] == s[p];
      } else if p > j {
        assert t[p] == s[p - 1];
      }
    }
  }

  /** Deleting a position keeps a chain's addresses distinct and non-null. */
  lemma DeleteChain(s: seq<Addr>, m: int)
    requires Distinct(s) && Null !in s && 0 <= m < |s|
    ensures Distinct(Delete(s, m)) && Null !in Delete(s, m)
  {
    var t := Delete(s, m);
    DeleteIndex(s, m);
    forall i, k | 0 <= i < k < |t|
      ensures t[i] != t[k]
    {
      if k < m {
      } else if i < m {
        assert t[i] == s[i] && t[k] == s[k + 1];
      } else {
        assert t[i] == s[i + 1] && t[k] == s[k + 1];
      }
    }
    forall p | 0 <= p < |t|
      ensures t[p] != Null
    {
      if p < m {
        assert t[p] == s[p];
      } else {
        assert t[p] == s[p + 1];
      }
    }
  }

  /** Freeing a live node leaves one live node fewer. */
  lemma RemoveCard<V>(m: map<Addr, V>, k: Addr)
    requires k in m
    ensures |m - {k}| == |m| - 1
  {
    assert (m - {k}).Keys == m.Keys - {k};
  }

  /** A node whose word and both neighbours are unchanged still holds the right word. */
  lemma WordKept(s: seq<Addr>, link: map<Addr, Addr>, k: int, t: seq<Addr>, l: map<Addr, Addr>, i: int)
    requires Words(s, link) && 0 <= k < |s| && 0 <= i < |t|
    requires t[i] == s[k] && Before(t, i) == Before(s, k) && After(t, i) == After(s, k)
    requires t[i] in l && l[t[i]] == link[s[k]]
    ensures l[t[i]] == Both(t, i)
  {
    assert link[s[k]] == Both(s, k);
  }

  /** The heap after `_list_push_edge` links the fresh node `a` beyond the edge node `edge`. */
  function PushEdgeLink(link: map<Addr, Addr>, edge: Addr, a: Addr): map<Addr, Addr>
    requires edge in link
  {
    var edgeNext := NodeNext(link, edge, Null);
    link[a := edge][edge := Xor(a, edgeNext)]
  }

  /** Pushing a fresh node before the front of a non-empty chain keeps the invariant. */
  lemma PushEdgeLinked(s: seq<Addr>, link: map<Addr, Addr>, a: Addr)
    requires Linked(s, link) && |s| > 0
    requires a != Null && a !in link
    ensures Linked([a] + s, PushEdgeLink(link, s[0], a))
  {
    assert link[s[0]] == Both(s, 0);
    XorCancel(Null, After(s, 0));
    XorNull(s[0]);
    assert PushEdgeLink(link, s[0], a) == link[a := s[0]][s[0] := Xor(a, After(s, 0))];
    PushedFrontLinked(s, link, a);
  }

  lemma PushedFrontLinked(s: seq<Addr>, link: map<Addr, Addr>, a: Addr)
    requires Linked(s, link) && |s| > 0
    requires a != Null && a !in link
    ensures Linked([a] + s, link[a := s[0]][s[0] := Xor(a, After(s, 0))])
  {
    var t, l := Insert(s, 0, a), link[a := s[0]][s[0] := Xor(a, After(s, 0))];
    assert a !in s;
    InsertChain(s, 0, a);
    assert s[0] in link;
    assert |l| == |t|;
    forall i | 0 <= i < |t|
      ensures t[i] in l && l[t[i]] == Both(t, i)
    {
      InsertNeighbours(s, 0, a, i);
      if i == 0 {
        XorNull(s[0]);
      } else if i > 1 {
        assert t[i] != a && t[i] != s[0];
        WordKept(s, link, i - 1, t, l, i);
      }
    }
    assert Linked(t, l);
    InsertAtEdges(s, a);
  }

  /** The heap after `_list_pop_edge` unlinks and frees the edge node `edge` of a chain of two or more. */
  function PopEdgeLink(link: map<Addr, Addr>, edge: Addr): map<Addr, Addr>
    requires edge in link && NodeNext(link, edge, Null) in link
  {
    var newEdge := NodeNext(link, edge, Null);
    var newEdgeNext := NodeNext(link, newEdge, edge);
    link[newEdge := Xor(Null, newEdgeNext)] - {edge}
  }

  /** Popping the front of a chain of two or more decodes the new front and keeps the invariant. */
  lemma PopEdgeLinked(s: seq<Addr>, link: map<Addr, Addr>)
    requires Linked(s, link) && |s| >= 2
    ensures s[0] in link && NodeNext(link, s[0], Null) == s[1] && s[1] in link
    ensures Linked(s[1..], PopEdgeLink(link, s[0]))
  {
    StepAt(s, link, 0);
    StepAt(s, link, 1);
    XorNull(After(s, 1));
    assert PopEdgeLink(link, s[0]) == link[s[1] := After(s, 1)] - {s[0]};
    PoppedFrontLinked(s, link);
  }

  lemma PoppedFrontLinked(s: seq<Addr>, link: map<Addr, Addr>)
    requires Linked(s, link) && |s| >= 2
    ensures Linked(s[1..], link[s[1] := After(s, 1)] - {s[0]})
  {
    var t, l := Delete(s, 0), link[s[1] := After(s, 1)] - {s[0]};
    DeleteChain(s, 0);
    assert s[1] in link;
    assert |l| == |t|;
    forall i | 0 <= i < |t|
      ensures t[i] in l && l[t[i]] == Both(t, i)
    {
      DeleteNeighbours(s, 0, i);
      if i == 0 {
        XorNull(After(s, 1));
      } else {
        assert t[i] != s[0] && t[i] != s[1];
        WordKept(s, link, i + 1, t, l, i);
      }
    }
    assert Linked(t, l);
    DeleteAtEdges(s);
  }

  /** Pushing a fresh node beyond the back of a non-empty chain keeps the invariant. */
  lemma PushBackLinked(s: seq<Addr>, link: map<Addr, Addr>, a: Addr)
    requires Linked(s, link) && |s| > 0
    requires a != Null && a !in link
    ensures Linked(s + [a], PushEdgeLink(link, s[|s| - 1], a))
  {
    var r := Reverse(s);
    LinkedReverse(s, link);
    PushEdgeLinked(r, link, a);
    LinkedReverse([a] + r, PushEdgeLink(link, s[|s| - 1], a));
    ReversePrepend(a, r);
    ReverseReverse(s);
  }

  /** The first node of an empty list has a null word and is the whole chain. */
  lemma PushFirstLinked(a: Addr)
    requires a != Null
    ensures Linked([a], map[a := Null])
  {
    assert Both([a], 0) == Xor(Null, Null);
    XorNull(Null);
  }

  /** The empty chain owns no nodes. */
  lemma LinkedEmpty(link: map<Addr, Addr>)
    requires Linked([], link)
    ensures link == map[]
  {
  }

  /** Popping the back of a chain of two or more decodes the new back and keeps the invariant. */
  lemma PopBackLinked(s: seq<Addr>, link: map<Addr, Addr>)
    requires Linked(s, link) && |s| >= 2
    ensures s[|s| - 1] in link && NodeNext(link, s[|s| - 1], Null) == s[|s| - 2] && s[|s| - 2] in link
    ensures Linked(s[..|s| - 1], PopEdgeLink(link, s[|s| - 1]))
  {
    var r := Reverse(s);
    LinkedReverse(s, link);
    PopEdgeLinked(r, link);
    ReverseDropFirst(s);
    LinkedReverse(r[1..], PopEdgeLink(link, s[|s| - 1]));
    ReverseReverse(s[..|s| - 1]);
  }

  /** Popping the only node leaves the empty chain and the empty heap. */
  lemma PopLastLinked(s: seq<Addr>, link: map<Addr, Addr>)
    requires Linked(s, link) && |s| == 1
    ensures Linked([], link - {s[0]})
    ensures link - {s[0]} == map[]
  {
    RemoveCard(link, s[0]);
  }

  /**
   * The heap after `list_push_at` links the fresh node `a` between the
   * adjacent nodes `prev` and `it`: three "both" words are rewritten.
   */
  function SpliceIn(link: map<Addr, Addr>, prev: Addr, it: Addr, a: Addr): map<Addr, Addr>
    requires prev in link && it in link
  {
    var l1 := link[prev := Xor(a, NodeNext(link, prev, it))];
    var l2 := l1[it := Xor(a, NodeNext(l1, it, prev))];
    l2[a := Xor(prev, it)]
  }

  /** The relinked words of `SpliceIn`, given what the neighbours held before. */
  lemma SpliceInWords(link: map<Addr, Addr>, L: Addr, R: Addr, a: Addr, bl: Addr, ar: Addr)
    requires L in link && R in link && L != R && a != L && a != R
    requires link[L] == Xor(bl, R) && link[R] == Xor(L, ar)
    ensures SpliceIn(link, L, R, a) == link[L := Xor(a, bl)][R := Xor(a, ar)][a := Xor(L, R)]
    ensures SpliceIn(link, R, L, a) == SpliceIn(link, L, R, a)
  {
    XorCancel(bl, R);
    XorCancel(L, ar);
    XorCommutes(L, R);
    assert NodeNext(link, L, R) == bl;
    assert NodeNext(link, R, L) == ar;
    var lL := link[L := Xor(a, bl)];
    var lR := link[R := Xor(a, ar)];
    assert lL[R] == link[R] && lR[L] == link[L];
    assert NodeNext(lL, R, L) == ar;
    assert NodeNext(lR, L, R) == bl;
    assert SpliceIn(link, L, R, a) == lL[R := Xor(a, ar)][a := Xor(L, R)];
    assert SpliceIn(link, R, L, a) == lR[L := Xor(a, bl)][a := Xor(L, R)];
    UpdatesCommute(link, L, Xor(a, bl), R, Xor(a, ar));
  }

  lemma UpdatesCommute(m: map<Addr, Addr>, k1: Addr, v1: Addr, k2: Addr, v2: Addr)
    requires k1 != k2
    ensures m[k1 := v1][k2 := v2] == m[k2 := v2][k1 := v1]
  {
  }

  /**
   * Splicing a fresh node in between positions `j - 1` and `j` puts it at
   * position `j` and keeps the invariant, whichever of the two neighbours
   * is passed as `prev`.
   */
  lemma SpliceInLinked(s: seq<Addr>, link: map<Addr, Addr>, j: int, a: Addr)
    requires Linked(s, link) && 0 < j < |s|
    requires a != Null && a !in link
    ensures s[j - 1] in link && s[j] in link
    ensures SpliceIn(link, s[j], s[j - 1], a) == SpliceIn(link, s[j - 1], s[j], a)
    ensures Linked(Insert(s, j, a), SpliceIn(link, s[j - 1], s[j], a))
  {
    var L, R := s[j - 1], s[j];
    assert link[L] == Both(s, j - 1) && link[R] == Both(s, j);
    assert After(s, j - 1) == R && Before(s, j) == L;
    SpliceInWords(link, L, R, a, Before(s, j - 1), After(s, j));
    InsertedLinked(s, link, j, a);
  }

  /** The heap `SpliceIn` leaves behind when the new node goes to position `j`. */
  ghost function Inserted(s: seq<Addr>, link: map<Addr, Addr>, j: int, a: Addr): map<Addr, Addr>
    requires 0 < j < |s|
  {
    link[s[j - 1] := Xor(a, Before(s, j - 1))][s[j] := Xor(a, After(s, j))][a := Xor(s[j - 1], s[j])]
  }

  lemma InsertedLinked(s: seq<Addr>, link: map<Addr, Addr>, j: int, a: Addr)
    requires Linked(s, link) && 0 < j < |s|
    requires a != Null && a !in link
    ensures Linked(Insert(s, j, a), Inserted(s, link, j, a))
  {
    var t, l := Insert(s, j, a), Inserted(s, link, j, a);
    assert a !in s;
    InsertChain(s, j, a);
    assert s[j - 1] in link && s[j] in link;
    assert |l| == |t|;
    forall i | 0 <= i < |t|
      ensures t[i] in l && l[t[i]] == Both(t, i)
    {
      SpliceInWordAt(s, link, j, a, i);
    }
  }

  /** After `SpliceIn`, the node at each position of the new chain holds the right word. */
  lemma SpliceInWordAt(s: seq<Addr>, link: map<Addr, Addr>, j: int, a: Addr, i: int)
    requires Linked(s, link) && 0 < j < |s| && 0 <= i <= |s|
    requires a != Null && a !in link
    ensures Insert(s, j, a)[i] in Inserted(s, link, j, a)
    ensures Inserted(s, link, j, a)[Insert(s, j, a)[i]] == Both(Insert(s, j, a), i)
  {
    var L, R, bl := s[j - 1], s[j], Before(s, j - 1);
    var t := Insert(s, j, a);
    var l := Inserted(s, link, j, a);
    InsertNeighbours(s, j, a, i);
    if i < j - 1 {
      assert t[i] != L && t[i] != R && t[i] != a;
      WordKept(s, link, i, t, l, i);
    } else if i > j + 1 {
      assert t[i] != L && t[i] != R && t[i] != a;
      WordKept(s, link, i - 1, t, l, i);
    } else if i == j - 1 {
      XorCommutes(a, bl);
    }
  }

  /**
   * The heap after `list_pop_at` relinks `prev` and `next` to each other
   * around `it` and frees `it`.
   */
  function SpliceOut(link: map<Addr, Addr>, prev: Addr, it: Addr, next: Addr): map<Addr, Addr>
    requires prev in link && next in link
  {
    var l1 := link[prev := Xor(next, NodeNext(link, prev, it))];
    var l2 := l1[next := Xor(prev, NodeNext(l1, next, it))];
    l2 - {it}
  }

  /** The relinked words of `SpliceOut`, given what the three nodes held before. */
  lemma SpliceOutWords(link: map<Addr, Addr>, L: Addr, M: Addr, R: Addr, bl: Addr, ar: Addr)
    requires L in link && M in link && R in link && L != R && L != M && M != R
    requires link[L] == Xor(bl, M) && link[M] == Xor(L, R) && link[R] == Xor(M, ar)
    ensures NodeNext(link, M, L) == R && NodeNext(link, M, R) == L
    ensures SpliceOut(link, L, M, R) == link[L := Xor(R, bl)][R := Xor(L, ar)] - {M}
    ensures SpliceOut(link, R, M, L) == SpliceOut(link, L, M, R)
  {
    XorCancel(L, R);
    XorCancel(bl, M);
    XorCancel(M, ar);
    var lL := link[L := Xor(R, bl)];
    var lR := link[R := Xor(L, ar)];
    assert lL[R] == link[R] && lR[L] == link[L];
    assert SpliceOut(link, L, M, R) == lL[R := Xor(L, ar)] - {M};
    assert SpliceOut(link, R, M, L) == lR[L := Xor(R, bl)] - {M};
    UpdatesCommute(link, L, Xor(R, bl), R, Xor(L, ar));
  }

  /**
   * Splicing out the inner node at position `m` decodes its successor from
   * either neighbour, removes exactly that node and keeps the invariant,
   * whichever of the two neighbours is passed as `prev`.
   */
  lemma SpliceOutLinked(s: seq<Addr>, link: map<Addr, Addr>, m: int)
    requires Linked(s, link) && 0 < m < |s| - 1
    ensures s[m] in link && s[m - 1] in link && s[m + 1] in link
    ensures NodeNext(link, s[m], s[m - 1]) == s[m + 1]
    ensures NodeNext(link, s[m], s[m + 1]) == s[m - 1]
    ensures SpliceOut(link, s[m + 1], s[m], s[m - 1]) == SpliceOut(link, s[m - 1], s[m], s[m + 1])
    ensures Linked(Delete(s, m), SpliceOut(link, s[m - 1], s[m], s[m + 1]))
  {
    var L, M, R := s[m - 1], s[m], s[m + 1];
    assert L != R && L != M && M != R;
    assert link[L] == Both(s, m - 1) && link[M] == Both(s, m) && link[R] == Both(s, m + 1);
    assert After(s, m - 1) == M && Before(s, m) == L && After(s, m) == R && Before(s, m + 1) == M;
    SpliceOutWords(link, L, M, R, Before(s, m - 1), After(s, m + 1));
    DeletedLinked(s, link, m);
  }

  /** The heap `SpliceOut` leaves behind when the node at inner position `m` goes. */
  ghost function Deleted(s: seq<Addr>, link: map<Addr, Addr>, m: int): map<Addr, Addr>
    requires 0 < m < |s| - 1
  {
    link[s[m - 1] := Xor(s[m + 1], Before(s, m - 1))][s[m + 1] := Xor(s[m - 1], After(s, m + 1))] - {s[m]}
  }

  lemma DeletedLinked(s: seq<Addr>, link: map<Addr, Addr>, m: int)
    requires Linked(s, link) && 0 < m < |s| - 1
    ensures Linked(Delete(s, m), Deleted(s, link, m))
  {
    var t, l := Delete(s, m), Deleted(s, link, m);
    DeleteChain(s, m);
    assert s[m - 1] in link && s[m + 1] in link;
    assert |l| == |t|;
    forall i | 0 <= i < |t|
      ensures t[i] in l && l[t[i]] == Both(t, i)
    {
      SpliceOutWordAt(s, link, m, i);
    }
  }

  /** After `SpliceOut`, the node at each position of the new chain holds the right word. */
  lemma SpliceOutWordAt(s: seq<Addr>, link: map<Addr, Addr>, m: int, i: int)
    requires Linked(s, link) && 0 < m < |s| - 1 && 0 <= i < |s| - 1
    ensures Delete(s, m)[i] in Deleted(s, link, m)
    ensures Deleted(s, link, m)[Delete(s, m)[i]] == Both(Delete(s, m), i)
  {
    var L, M, R, bl := s[m - 1], s[m], s[m + 1], Before(s, m - 1);
    var t := Delete(s, m);
    var l := Deleted(s, link, m);
    DeleteNeighbours(s, m, i);
    if i < m - 1 {
      assert t[i] != L && t[i] != M && t[i] != R;
      WordKept(s, link, i, t, l, i);
    } else if i > m {
      assert t[i] != L && t[i] != M && t[i] != R;
      WordKept(s, link, i + 1, t, l, i);
    } else if i == m - 1 {
      XorCommutes(R, bl);
    }
  }

  /** The live nodes are exactly the nodes of the chain. */
  lemma LinkedKeys(s: seq<Addr>, link: map<Addr, Addr>)
    requires Linked(s, link)
    ensures forall a :: a in link <==> a in s
  {
    ChainKeys(s, link);
  }

  /** A map with an entry for each of `|s|` distinct addresses has no other entries. */
  lemma ChainKeys<V>(s: seq<Addr>, m: map<Addr, V>)
    requires Distinct(s) && |m| == |s|
    requires forall i :: 0 <= i < |s| ==> s[i] in m
    ensures forall a :: a in m <==> a in s
  {
    DistinctCard(s);
    var e := set x | x in s;
    assert e <= m.Keys;
    assert |m.Keys - e| == |m.Keys| - |e|;
    assert m.Keys - e == {};
    assert m.Keys == e;
  }

  lemma {:induction false} DistinctCard(s: seq<Addr>)
    requires Distinct(s)
    ensures |set x | x in s| == |s|
  {
    if s != [] {
      var t := s[1..];
      assert Distinct(t) by {
        forall i, j | 0 <= i < j < |t|
          ensures t[i] != t[j]
        {
          assert t[i] == s[i + 1] && t[j] == s[j + 1];
        }
      }
      DistinctCard(t);
      assert (set x | x in s) == (set x | x in t) + {s[0]};
      assert s[0] !in t;
    }
  }
}
