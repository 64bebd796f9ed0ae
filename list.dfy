/**
 * The list record of `list.c` (`_ListData`) and its operations.  A list keeps
 * only its two edge nodes, its item size and its node count; the nodes live on
 * the heap, each holding a "both" word (the XOR of its neighbours' addresses)
 * followed by one item.  The heap's "both" words are the map `link` and the
 * items the map `items`, both keyed by node address; the ghost chain `nodes`
 * lists the live nodes front to back.
 */
module XorList {
  import opened Seqs
  import opened XorLinks

  /** Which end of the list an edge operation works on (`front_or_back_ref`). */
  datatype Edge = Front | Back

  /** The chain as seen from `edge`: front to back, or back to front. */
  function Oriented(s: seq<Addr>, edge: Edge): seq<Addr>
  {
    if edge == Front then s else Reverse(s)
  }

  /** The items stored in the nodes of `s`, in the order of `s`. */
  function ItemsOf<T>(s: seq<Addr>, items: map<Addr, T>): seq<T>
    requires forall i :: 0 <= i < |s| ==> s[i] in items
  {
    seq(|s|, i requires 0 <= i < |s| && s[i] in items => items[s[i]])
  }

  /** A negative index counts from the back: `index < 0 ? index + num : index`. */
  function Natural(index: int, num: int): (natural: int)
    ensures -num <= index < num ==> 0 <= natural < num
    ensures -num - 1 <= index <= num ==> -1 <= natural <= num
  {
    if index >= 0 then index else index + num
  }

  /** `_list_get_node_at` walks from the front exactly when `0 > natural - num / 2`. */
  predicate StartsAtFront(natural: int, num: int)
    requires num >= 0
  {
    0 > natural - num / 2
  }

  /**
   * The indices `list_push_at` handles: the range its assertions admit, less
   * the natural index -1 and, on a list of two or more, `num - 1`, where the
   * walk leaves `prev` null and the first relink dereferences it.
   */
  predicate PushAtDefined(index: int, num: int)
    requires num >= 0
  {
    var natural := Natural(index, num);
    && -num - 1 <= index <= num
    && (natural == 0 || natural == num || 0 < natural < num - 1)
  }

  /**
   * Where `list_push_at` puts its new item: the natural index when it pushes
   * at an edge or walks from the front, one further when it walks from the
   * back (there `prev` is the node after `it`).
   */
  function PushAtSlot(natural: int, num: int): int
    requires num >= 0
  {
    if natural == 0 || natural == num || StartsAtFront(natural, num) then natural else natural + 1
  }

  /** The result of a traversal: the first non-zero visitor result, or 0 when there is none. */
  function FirstNonZero<T>(visit: T -> int, s: seq<T>): int
  {
    if s == [] then 0
    else if visit(s[0]) != 0 then visit(s[0])
    else FirstNonZero(visit, s[1..])
  }

  /** A traversal returns 0 exactly when every visit returns 0, and otherwise the result of the first non-zero visit. */
  lemma {:induction false} FirstNonZeroSpec<T>(visit: T -> int, s: seq<T>)
    ensures FirstNonZero(visit, s) == 0 <==> forall i :: 0 <= i < |s| ==> visit(s[i]) == 0
    ensures FirstNonZero(visit, s) != 0 ==>
      exists k :: 0 <= k < |s| && visit(s[k]) == FirstNonZero(visit, s) && forall i :: 0 <= i < k ==> visit(s[i]) == 0
  {
    if s != [] && visit(s[0]) == 0 {
      var t := s[1..];
      FirstNonZeroSpec(visit, t);
      assert forall i :: 0 < i < |s| ==> s[i] == t[i - 1];
      if FirstNonZero(visit, t) != 0 {
        var k :| 0 <= k < |t| && visit(t[k]) == FirstNonZero(visit, t) && forall i :: 0 <= i < k ==> visit(t[i]) == 0;
        assert visit(s[k + 1]) == FirstNonZero(visit, s);
        assert forall i :: 0 <= i < k + 1 ==> visit(s[i]) == 0 by {
          forall i | 0 < i < k + 1
            ensures visit(s[i]) == 0
          {
            assert s[i] == t[i - 1];
          }
        }
      }
    }
  }

  /** Visits that return 0 do not change what the rest of a traversal returns. */
  lemma FirstNonZeroSkip<T>(visit: T -> int, s: seq<T>, i: int)
    requires 0 <= i < |s| && visit(s[i]) == 0
    ensures FirstNonZero(visit, s[i..]) == FirstNonZero(visit, s[i + 1..])
  {
    assert s[i..][1..] == s[i + 1..];
  }

  /** Every node of `s` has an item, and no other address has one. */
  ghost predicate Stored<T>(s: seq<Addr>, items: map<Addr, T>)
  {
    && (forall i :: 0 <= i < |s| ==> s[i] in items)
    && |items| == |s|
  }

  /** Storing a fresh node's item and inserting the node inserts the item. */
  lemma ItemsInsert<T>(s: seq<Addr>, items: map<Addr, T>, j: int, a: Addr, x: T)
    requires Stored(s, items) && Distinct(s)
    requires 0 <= j <= |s| && a !in s
    ensures Stored(Insert(s, j, a), items[a := x])
    ensures ItemsOf(Insert(s, j, a), items[a := x]) == Insert(ItemsOf(s, items), j, x)
  {
    var t, m := Insert(s, j, a), items[a := x];
    ChainKeys(s, items);
    InsertIndex(s, j, a);
    InsertIndex(ItemsOf(s, items), j, x);
    forall i | 0 <= i < |t|
      ensures t[i] in m && m[t[i]] == Insert(ItemsOf(s, items), j, x)[i]
    {
      if i != j {
        assert t[i] != a;
      }
    }
  }

  /** Dropping a node of a chain of distinct nodes, and its item, drops the item at the same position. */
  lemma ItemsDelete<T>(s: seq<Addr>, items: map<Addr, T>, m: int)
    requires Stored(s, items) && Distinct(s) && 0 <= m < |s|
    ensures Stored(Delete(s, m), items - {s[m]})
    ensures ItemsOf(Delete(s, m), items - {s[m]}) == Delete(ItemsOf(s, items), m)
  {
    var t, n := Delete(s, m), items - {s[m]};
    RemoveCard(items, s[m]);
    DeleteIndex(s, m);
    DeleteIndex(ItemsOf(s, items), m);
    forall i | 0 <= i < |t|
      ensures t[i] in n && n[t[i]] == Delete(ItemsOf(s, items), m)[i]
    {
      assert t[i] != s[m];
    }
  }

  /** Pushing at either end adds the item at that end. */
  lemma ItemsAtEdges<T>(s: seq<Addr>, items: map<Addr, T>, a: Addr, x: T)
    requires Stored(s, items) && Distinct(s) && a !in s
    ensures Stored([a] + s, items[a := x]) && Stored(s + [a], items[a := x])
    ensures ItemsOf([a] + s, items[a := x]) == [x] + ItemsOf(s, items)
    ensures ItemsOf(s + [a], items[a := x]) == ItemsOf(s, items) + [x]
  {
    ItemsInsert(s, items, 0, a, x);
    ItemsInsert(s, items, |s|, a, x);
    InsertAtEdges(s, a);
    InsertAtEdges(ItemsOf(s, items), x);
  }

  /** Popping either end of a chain of distinct nodes drops the item at that end. */
  lemma ItemsDropEdges<T>(s: seq<Addr>, items: map<Addr, T>)
    requires Stored(s, items) && Distinct(s) && |s| > 0
    ensures Stored(s[1..], items - {s[0]}) && Stored(s[..|s| - 1], items - {s[|s| - 1]})
    ensures ItemsOf(s[1..], items - {s[0]}) == ItemsOf(s, items)[1..]
    ensures ItemsOf(s[..|s| - 1], items - {s[|s| - 1]}) == ItemsOf(s, items)[..|s| - 1]
  {
    ItemsDelete(s, items, 0);
    ItemsDelete(s, items, |s| - 1);
    DeleteAtEdges(s);
    DeleteAtEdges(ItemsOf(s, items));
  }

  /** The items of the reversed chain are the items reversed. */
  lemma ItemsReverse<T>(s: seq<Addr>, items: map<Addr, T>)
    requires forall i :: 0 <= i < |s| ==> s[i] in items
    ensures forall i :: 0 <= i < |s| ==> Reverse(s)[i] in items
    ensures ItemsOf(Reverse(s), items) == Reverse(ItemsOf(s, items))
  {
  }

  /** The end node of the chain that `edge` names, null for the empty chain. */
  function EdgeOf(s: seq<Addr>, edge: Edge): Addr
  {
    if edge == Front then First(s) else Last(s)
  }

  /** A chain with `x` added at `edge`. */
  function Attach<X>(s: seq<X>, edge: Edge, x: X): seq<X>
  {
    if edge == Front then [x] + s else s + [x]
  }

  /** A non-empty chain without its `edge` end. */
  function Detach<X>(s: seq<X>, edge: Edge): seq<X>
    requires |s| > 0
  {
    if edge == Front then s[1..] else s[..|s| - 1]
  }

  /**
   * The state change of `_list_push_edge`, on values: a fresh node becomes
   * the only node of an empty chain, or is linked to the old `edge` node.
   */
  lemma PushStep<T>(s: seq<Addr>, link: map<Addr, Addr>, items: map<Addr, T>, edge: Edge, a: Addr, x: T)
    requires Linked(s, link) && Stored(s, items)
    requires a != Null && a !in link
    ensures |s| == 0 ==> link == map[] && Attach(s, edge, a) == [a] && Linked([a], link[a := Null])
    ensures |s| > 0 ==> EdgeOf(s, edge) in link && Linked(Attach(s, edge, a), PushEdgeLink(link, EdgeOf(s, edge), a))
    ensures Stored(Attach(s, edge, a), items[a := x])
    ensures ItemsOf(Attach(s, edge, a), items[a := x]) == Attach(ItemsOf(s, items), edge, x)
  {
    ItemsAtEdges(s, items, a, x);
    if |s| == 0 {
      LinkedEmpty(link);
      PushFirstLinked(a);
    } else if edge == Front {
      PushEdgeLinked(s, link, a);
    } else {
      PushBackLinked(s, link, a);
    }
  }

  /**
   * The state change of `_list_pop_edge`, on values: the `edge` node goes;
   * its neighbour, decoded from its word, is the new end and holds a word
   * naming only its other neighbour.
   */
  lemma PopStep<T>(s: seq<Addr>, link: map<Addr, Addr>, items: map<Addr, T>, edge: Edge)
    requires Linked(s, link) && Stored(s, items) && |s| > 0
    ensures EdgeOf(s, edge) in link
    ensures |s| == 1 ==> s[0] == EdgeOf(s, edge) && Linked([], link - {s[0]}) && link - {s[0]} == map[]
    ensures |s| > 1 ==> NodeNext(link, EdgeOf(s, edge), Null) == EdgeOf(Detach(s, edge), edge)
    ensures |s| > 1 ==> NodeNext(link, EdgeOf(s, edge), Null) in link
    ensures |s| > 1 ==> Linked(Detach(s, edge), PopEdgeLink(link, EdgeOf(s, edge)))
    ensures Stored(Detach(s, edge), items - {EdgeOf(s, edge)})
    ensures ItemsOf(Detach(s, edge), items - {EdgeOf(s, edge)}) == Detach(ItemsOf(s, items), edge)
  {
    ItemsDropEdges(s, items);
    if |s| == 1 {
      PopLastLinked(s, link);
    } else if edge == Front {
      PopEdgeLinked(s, link);
    } else {
      PopBackLinked(s, link);
    }
  }

  /**
   * The relinking step of `list_push_at`, on values: the fresh node goes in
   * between positions `j - 1` and `j`, whichever of the two is `prev`.
   */
  lemma LinkStep<T>(s: seq<Addr>, link: map<Addr, Addr>, items: map<Addr, T>, j: int, prev: Addr, it: Addr, a: Addr, x: T)
    requires Linked(s, link) && Stored(s, items) && 0 < j < |s|
    requires (prev == s[j - 1] && it == s[j]) || (prev == s[j] && it == s[j - 1])
    requires a != Null && a !in link
    ensures prev in link && it in link
    ensures Linked(Insert(s, j, a), SpliceIn(link, prev, it, a))
    ensures Stored(Insert(s, j, a), items[a := x])
    ensures ItemsOf(Insert(s, j, a), items[a := x]) == Insert(ItemsOf(s, items), j, x)
    ensures Insert(s, j, a)[0] == s[0] && Insert(s, j, a)[|s|] == s[|s| - 1]
  {
    SpliceInLinked(s, link, j, a);
    ItemsInsert(s, items, j, a, x);
    InsertInner(s, j, a);
  }

  /**
   * The relinking step of `list_pop_at`, on values: the inner node at
   * position `m` goes and its neighbours, whichever of them is `prev`, are
   * linked to each other.
   */
  lemma UnlinkStep<T>(s: seq<Addr>, link: map<Addr, Addr>, items: map<Addr, T>, m: int, prev: Addr)
    requires Linked(s, link) && Stored(s, items) && 0 < m < |s| - 1
    requires prev == s[m - 1] || prev == s[m + 1]
    ensures s[m] in link && prev in link && NodeNext(link, s[m], prev) in link
    ensures NodeNext(link, s[m], prev) == (if prev == s[m - 1] then s[m + 1] else s[m - 1])
    ensures Linked(Delete(s, m), SpliceOut(link, prev, s[m], NodeNext(link, s[m], prev)))
    ensures Stored(Delete(s, m), items - {s[m]})
    ensures ItemsOf(Delete(s, m), items - {s[m]}) == Delete(ItemsOf(s, items), m)
    ensures Delete(s, m)[0] == s[0] && Delete(s, m)[|s| - 2] == s[|s| - 1]
  {
    SpliceOutLinked(s, link, m);
    ItemsDelete(s, items, m);
    DeleteInner(s, m);
  }

  /**
   * The record behind a `ListHandle`.  `front`, `back`, `itemSize` and `num`
   * are the fields of `_ListData`; `link` and `items` are the "both" words and
   * the items of the nodes the list owns.
   */
  class ListData<T> {
    var front: Addr
    var back: Addr
    const itemSize: int
    var num: int
    var link: map<Addr, Addr>
    var items: map<Addr, T>
    ghost var nodes: seq<Addr>

    /**
     * The list invariant: the nodes form an XOR-linked chain, every node has
     * an item, `num` counts the nodes and the edge fields name the end nodes
     * of a non-empty list.  An empty list may keep stale edge fields.
     */
    ghost predicate Valid()
      reads this
    {
      && itemSize > 0
      && Linked(nodes, link)
      && Stored(nodes, items)
      && num == |nodes|
      && (|nodes| > 0 ==> front == nodes[0] && back == nodes[|nodes| - 1])
    }

    /** The edge fields of an empty list are null (false only after `list_pop_all`). */
    ghost predicate Settled()
      reads this
    {
      num == 0 ==> front == Null && back == Null
    }

    /** The list's items, front to back. */
    ghost function Items(): seq<T>
      reads this
      requires Valid()
    {
      ItemsOf(nodes, items)
    }

    /** `_list_new`: an empty list of items of `itemSize` bytes. */
    constructor (itemSize: int)
      requires itemSize > 0
      ensures Valid() && Settled()
      ensures this.itemSize == itemSize && nodes == [] && Items() == []
    {
      this.itemSize := itemSize;
      num := 0;
      front := Null;
      back := Null;
      link := map[];
      items := map[];
      nodes := [];
    }

    /** `list_is_empty`. */
    function IsEmpty(): (r: bool)
      reads this
      requires Valid()
      ensures r <==> Items() == []
    {
      num == 0
    }

    /** `list_get_num`: never negative, and the number of items. */
    function Num(): (r: int)
      reads this
      requires Valid()
      ensures r >= 0 && r == |Items()|
    {
      num
    }

    /** `list_get_item_size`. */
    function GetItemSize(): (r: int)
      reads this
      requires Valid()
      ensures r > 0
    {
      itemSize
    }

    /** `list_get_node_size`: a node is a word (`sizeof(size_t)` bytes) followed by an item. */
    function NodeSize(wordSize: int): (r: int)
      reads this
      requires Valid()
      ensures r - wordSize == GetItemSize() && r > wordSize
    {
      wordSize + itemSize
    }

    /**
     * `list_get_current_size`: the record plus `num` nodes, which is the
     * record plus every node block the list holds on the heap.
     */
    function CurrentSize(recordSize: int, wordSize: int): (r: int)
      reads this
      requires Valid()
      ensures r == recordSize + |link| * NodeSize(wordSize)
      ensures r == recordSize + |Items()| * NodeSize(wordSize)
    {
      recordSize + num * NodeSize(wordSize)
    }

    /** `list_get_front`. */
    function GetFront(): (x: T)
      reads this
      requires Valid() && num > 0
      ensures x == Items()[0]
    {
      items[front]
    }

    /** `list_get_back`. */
    function GetBack(): (x: T)
      reads this
      requires Valid() && num > 0
      ensures x == Items()[|Items()| - 1]
    {
      items[back]
    }

    /**
     * `_list_push_edge`: a fresh node `a` holding `x` becomes the new
     * `edge`.  On an empty list it is the only node, with a null "both"
     * word; otherwise it links to the old edge node, whose word is rewritten.
     */
    method PushEdge(edge: Edge, a: Addr, x: T)
      requires Valid()
      requires a != Null && a !in link
      modifies this
      ensures Valid() && Settled() && num == old(num) + 1
      ensures edge == Front ==> nodes == [a] + old(nodes) && Items() == [x] + old(Items())
      ensures edge == Back ==> nodes == old(nodes) + [a] && Items() == old(Items()) + [x]
      ensures old(num) == 0 ==> front == a && back == a && link == map[a := Null]
    {
      ghost var s := nodes;
      PushStep(s, link, items, edge, a, x);
      var heap, newFront, newBack := link, front, back;
      if num == 0 {
        var first := a;
        heap := heap[first := Null];
        newFront, newBack := first, first;
      } else {
        var newEdge := a;
        var oldEdge := if edge == Front then front else back;
        var oldEdgeNext := NodeNext(heap, oldEdge, Null);
        heap := heap[newEdge := oldEdge];
        var oldEdgeNewBoth := Xor(newEdge, oldEdgeNext);
        heap := heap[oldEdge := oldEdgeNewBoth];
        if edge == Front {
          newFront := newEdge;
        } else {
          newBack := newEdge;
        }
      }
      link, items, front, back := heap, items[a := x], newFront, newBack;
      nodes, num := Attach(s, edge, a), num + 1;
    }

    /** `list_push_front`. */
    method PushFront(a: Addr, x: T)
      requires Valid()
      requires a != Null && a !in link
      modifies this
      ensures Valid() && Settled() && num == old(num) + 1
      ensures nodes == [a] + old(nodes) && Items() == [x] + old(Items())
      ensures front == a
    {
      PushEdge(Front, a, x);
    }

    /** `list_push_back`. */
    method PushBack(a: Addr, x: T)
      requires Valid()
      requires a != Null && a !in link
      modifies this
      ensures Valid() && Settled() && num == old(num) + 1
      ensures nodes == old(nodes) + [a] && Items() == old(Items()) + [x]
      ensures back == a
    {
      PushEdge(Back, a, x);
    }

    /**
     * `_list_pop_edge`: the `edge` node is unlinked and freed.  The last node
     * leaves both edge fields null; otherwise its neighbour becomes the edge
     * and gets a word holding only its other neighbour.
     */
    method PopEdge(edge: Edge)
      requires Valid() && num > 0
      modifies this
      ensures Valid() && Settled() && num == old(num) - 1
      ensures edge == Front ==> nodes == old(nodes)[1..] && Items() == old(Items())[1..]
      ensures edge == Back ==> nodes == old(nodes)[..old(num) - 1] && Items() == old(Items())[..old(num) - 1]
      ensures old(nodes)[if edge == Front then 0 else old(num) - 1] !in link
      ensures old(num) == 1 ==> front == Null && back == Null
    {
      ghost var s := nodes;
      PopStep(s, link, items, edge);
      var targetNum := num;
      if targetNum == 1 {
        link, items := link - {front}, items - {front};
        back, front := Null, Null;
      } else {
        var oldEdge := if edge == Front then front else back;
        var heap, newFront, newBack := link, front, back;
        var newEdge := NodeNext(heap, oldEdge, Null);
        var newEdgeNext := NodeNext(heap, newEdge, oldEdge);
        var newEdgeBoth := Xor(Null, newEdgeNext);
        heap := heap[newEdge := newEdgeBoth];
        if edge == Front {
          newFront := newEdge;
        } else {
          newBack := newEdge;
        }
        heap := heap - {oldEdge};
        link, items, front, back := heap, items - {oldEdge}, newFront, newBack;
      }
      nodes, num := Detach(s, edge), num - 1;
    }

    /** `list_pop_front`. */
    method PopFront()
      requires Valid() && num > 0
      modifies this
      ensures Valid() && Settled() && num == old(num) - 1
      ensures nodes == old(nodes)[1..] && Items() == old(Items())[1..]
      ensures old(nodes)[0] !in link
    {
      PopEdge(Front);
    }

    /** `list_pop_back`. */
    method PopBack()
      requires Valid() && num > 0
      modifies this
      ensures Valid() && Settled() && num == old(num) - 1
      ensures nodes == old(nodes)[..old(num) - 1] && Items() == old(Items())[..old(num) - 1]
      ensures old(nodes)[old(num) - 1] !in link
    {
      PopEdge(Back);
    }

    /**
     * `_list_get_node_at`: walks from the nearer end (the front exactly when
     * `natural < num / 2`) and returns the node `it` at position `natural`
     * and `prev`, its neighbour on the side the walk came from, or null when
     * `it` is the end node of that side.
     */
    method GetNodeAt(natural: int) returns (prev: Addr, it: Addr)
      requires Valid() && 0 <= natural < num
      ensures it == nodes[natural]
      ensures StartsAtFront(natural, num) ==> prev == Before(nodes, natural)
      ensures !StartsAtFront(natural, num) ==> prev == After(nodes, natural)
    {
      var startAtFront := 0 > natural - num / 2;
      it := if startAtFront then front else back;
      prev := Null;
      var end := if startAtFront then natural else num - natural - 1;
      ghost var r := Oriented(nodes, if startAtFront then Front else Back);
      assert Linked(r, link) by {
        if !startAtFront {
          LinkedReverse(nodes, link);
        }
      }
      for i := 0 to end
        invariant Cursor(prev, it) == At(r, i)
      {
        StepAt(r, link, i);
        var next := NodeNext(link, it, prev);
        prev := it;
        it := next;
      }
    }

    /**
     * `list_push_at`: natural index 0 pushes at the front and `num` at the
     * back; otherwise the fresh node is spliced in between the node found
     * at the natural index and the neighbour the walk came from.
     */
    method PushAt(index: int, a: Addr, x: T)
      requires Valid() && PushAtDefined(index, num)
      requires a != Null && a !in link
      modifies this
      ensures Valid() && Settled() && num == old(num) + 1
      ensures nodes == Insert(old(nodes), PushAtSlot(Natural(index, old(num)), old(num)), a)
      ensures Items() == Insert(old(Items()), PushAtSlot(Natural(index, old(num)), old(num)), x)
    {
      var n := num;
      var natural := if index >= 0 then index else index + n;
      ghost var s, j := nodes, PushAtSlot(natural, n);
      assert natural == Natural(index, n);
      if natural == 0 {
        InsertAtEdges(s, a);
        InsertAtEdges(Items(), x);
        PushFront(a, x);
        return;
      }
      if natural == n {
        InsertAtEdges(s, a);
        InsertAtEdges(Items(), x);
        PushBack(a, x);
        return;
      }
      var prev, it := GetNodeAt(natural);
      Link(prev, it, a, x, j);
    }

    /**
     * The relinking step of `list_push_at`: the fresh node `a` holding `x`
     * goes in between the adjacent nodes `prev` and `it`, which sit at
     * positions `j - 1` and `j` in either order.
     */
    method Link(prev: Addr, it: Addr, a: Addr, x: T, ghost j: int)
      requires Valid() && 0 < j < num
      requires (prev == nodes[j - 1] && it == nodes[j]) || (prev == nodes[j] && it == nodes[j - 1])
      requires a != Null && a !in link
      modifies this
      ensures Valid() && Settled() && num == old(num) + 1
      ensures nodes == Insert(old(nodes), j, a)
      ensures Items() == Insert(old(Items()), j, x)
    {
      ghost var s := nodes;
      LinkStep(s, link, items, j, prev, it, a, x);
      var heap := link;
      heap := heap[prev := Xor(a, NodeNext(heap, prev, it))];
      heap := heap[it := Xor(a, NodeNext(heap, it, prev))];
      heap := heap[a := Xor(prev, it)];
      link, items, nodes, num := heap, items[a := x], Insert(s, j, a), num + 1;
    }

    /** `list_get_at`: the item at the natural index; nothing changes. */
    method GetAt(index: int) returns (x: T)
      requires Valid() && -num <= index < num
      ensures x == Items()[Natural(index, num)]
    {
      var n := num;
      var natural := if index >= 0 then index else index + n;
      if natural == 0 {
        return GetFront();
      }
      if natural == n - 1 {
        return GetBack();
      }
      var prev, it := GetNodeAt(natural);
      x := items[it];
    }

    /**
     * `list_pop_at`: natural index 0 pops the front and `num - 1` the back;
     * otherwise the node found there is freed after its two neighbours are
     * relinked to each other.
     */
    method PopAt(index: int)
      requires Valid() && -num <= index < num
      modifies this
      ensures Valid() && Settled() && num == old(num) - 1
      ensures nodes == Delete(old(nodes), Natural(index, old(num)))
      ensures Items() == Delete(old(Items()), Natural(index, old(num)))
      ensures old(nodes)[Natural(index, old(num))] !in link
    {
      var n := num;
      var natural := if index >= 0 then index else index + n;
      ghost var s := nodes;
      assert natural == Natural(index, n);
      if natural == 0 {
        DeleteAtEdges(s);
        DeleteAtEdges(Items());
        PopFront();
        return;
      }
      if natural == n - 1 {
        DeleteAtEdges(s);
        DeleteAtEdges(Items());
        PopBack();
        return;
      }
      var prev, it := GetNodeAt(natural);
      Unlink(prev, it, natural);
    }

    /**
     * The relinking step of `list_pop_at`: the inner node `it` at position
     * `m` is freed after its neighbours, `prev` being either of them, are
     * linked to each other.
     */
    method Unlink(prev: Addr, it: Addr, ghost m: int)
      requires Valid() && 0 < m < num - 1 && it == nodes[m]
      requires prev == nodes[m - 1] || prev == nodes[m + 1]
      modifies this
      ensures Valid() && Settled() && num == old(num) - 1
      ensures nodes == Delete(old(nodes), m)
      ensures Items() == Delete(old(Items()), m)
      ensures it !in link
    {
      ghost var s := nodes;
      UnlinkStep(s, link, items, m, prev);
      var next := NodeNext(link, it, prev);
      var heap := link;
      heap := heap[prev := Xor(next, NodeNext(heap, prev, it))];
      heap := heap[next := Xor(prev, NodeNext(heap, next, it))];
      heap := heap - {it};
      link, items, nodes, num := heap, items - {it}, Delete(s, m), num - 1;
    }

    /**
     * `list_pop_all`: walks from the front freeing every node, then sets
     * `num` to 0; `front` and `back` keep the addresses of freed nodes.
     */
    method PopAll()
      requires Valid() && Settled()
      modifies this
      ensures Valid() && num == 0 && nodes == [] && Items() == []
      ensures link == map[] && items == map[]
      ensures front == old(front) && back == old(back)
    {
      ghost var s, link0 := nodes, link;
      var it := front;
      var prev := Null;
      ghost var i := 0;
      while it != Null
        invariant 0 <= i <= |s| && Cursor(prev, it) == At(s, i)
        invariant |link| == |s| - i && |items| == |s| - i
        invariant forall k :: 0 <= k < |s| ==> (s[k] in link <==> i <= k) && (s[k] in items <==> i <= k)
        invariant forall k :: i <= k < |s| ==> link[s[k]] == link0[s[k]]
        invariant front == old(front) && back == old(back) && nodes == s && num == |s|
        decreases |s| - i
      {
        StepAt(s, link0, i);
        RemoveCard(link, it);
        RemoveCard(items, it);
        var next := NodeNext(link, it, prev);
        prev := it;
        it := next;
        link, items := link - {prev}, items - {prev};
        i := i + 1;
      }
      num := 0;
      nodes := [];
    }

    /**
     * `_list_foreach_internal`: walks from `start` (the front or the back),
     * reading each node's successor before the visitor runs on its item, and
     * returns the first non-zero visitor result, or 0.
     */
    method ForeachInternal(visit: T -> int, start: Addr) returns (r: int)
      requires Valid() && Settled()
      requires start == front || start == back
      ensures r == FirstNonZero(visit, ItemsOf(Oriented(nodes, if start == front then Front else Back), items))
    {
      ghost var o := Oriented(nodes, if start == front then Front else Back);
      assert Linked(o, link) && forall k :: 0 <= k < |o| ==> o[k] in items by {
        LinkedReverse(nodes, link);
        ItemsReverse(nodes, items);
      }
      ghost var t := ItemsOf(o, items);
      var it := start;
      var prev := Null;
      ghost var i := 0;
      while it != Null
        invariant 0 <= i <= |o| && Cursor(prev, it) == At(o, i)
        invariant FirstNonZero(visit, t) == FirstNonZero(visit, t[i..])
        decreases |o| - i
      {
        var item := items[it];
        StepAt(o, link, i);
        var next := NodeNext(link, it, prev);
        prev := it;
        it := next;
        var breakResult := visit(item);
        if breakResult != 0 {
          return breakResult;
        }
        FirstNonZeroSkip(visit, t, i);
        i := i + 1;
      }
      return 0;
    }

    /** `list_foreach`: front to back. */
    method Foreach(visit: T -> int) returns (r: int)
      requires Valid() && Settled()
      ensures r == FirstNonZero(visit, Items())
    {
      r := ForeachInternal(visit, front);
    }

    /** `list_foreach_reversed`: back to front. */
    method ForeachReversed(visit: T -> int) returns (r: int)
      requires Valid() && Settled()
      ensures r == FirstNonZero(visit, Reverse(Items()))
    {
      if num > 0 && front == back {
        assert nodes == Reverse(nodes);
      }
      ItemsReverse(nodes, items);
      r := ForeachInternal(visit, back);
    }
  }

  /** A `ListHandle` variable: a reference to a list record, or null. */
  class ListHandle<T> {
    var target: ListData?<T>

    constructor (target: ListData?<T>)
      ensures this.target == target
      ensures IsValid() <==> target != null
    {
      this.target := target;
    }

    /** `list_is_valid`. */
    predicate IsValid()
      reads this
    {
      target != null
    }
  }

  /**
   * `list_destroy`: frees every node of the list, then the record, and
   * nulls the handle, which is no longer valid.
   */
  method Destroy<T>(targetRef: ListHandle<T>)
    requires targetRef.target != null
    requires targetRef.target.Valid() && targetRef.target.Settled()
    modifies targetRef, targetRef.target
    ensures !targetRef.IsValid()
    ensures old(targetRef.target).num == 0 && old(targetRef.target).link == map[]
  {
    targetRef.target.PopAll();
    targetRef.target := null;
  }
}
