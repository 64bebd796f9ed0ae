/**
 * The demonstration program `example.c`, replayed on the model: a list of
 * characters is filled with 'a' to 'z', trimmed at both ends, grown and
 * shrunk at indices counted from either end, read, traversed and destroyed.
 * Each fresh node address is the next unused one of a counter.
 */
module Scenario {
  import opened Seqs
  import opened XorLinks
  import opened XorList

  /** The characters 'a' to 'z'. */
  function Alphabet(): (r: seq<char>)
    ensures |r| == 26 && r[0] == 'a' && r[25] == 'z'
  {
    seq(26, i requires 0 <= i < 26 => (('a' as int) + i) as char)
  }

  /** The visitor `print_my_item`, less its output: it never stops a traversal. */
  function PrintItem(c: char): int
  {
    0
  }

  /** Addresses at or above `next` are not nodes of the list. */
  ghost predicate AllBelow(l: ListData<char>, next: nat)
    reads l
  {
    forall k :: 0 <= k < |l.nodes| ==> l.nodes[k].bits < next
  }

  /** An address at or above `next` is free to be handed out by the allocator. */
  lemma FreshAddr(l: ListData<char>, next: nat)
    requires l.Valid() && AllBelow(l, next) && next > 0
    ensures Addr(next) != Null && Addr(next) !in l.link
  {
    LinkedKeys(l.nodes, l.link);
  }

  /** A fresh node numbered `next` keeps every node below `next + 1`. */
  lemma BelowInsert(s: seq<Addr>, j: int, a: Addr, next: nat)
    requires 0 <= j <= |s| && a.bits == next
    requires forall k :: 0 <= k < |s| ==> s[k].bits < next
    ensures forall k :: 0 <= k < |s| + 1 ==> Insert(s, j, a)[k].bits < next + 1
  {
    InsertIndex(s, j, a);
  }

  /** The contents after `list_push_at(2)`, as `example.c` reaches them. */
  lemma ContentsGrowFront()
    ensures Insert("defghijklmnopqrstuvw", 2, '0') == "de0fghijklmnopqrstuvw"
  {
    InsertSplit("de", "fghijklmnopqrstuvw", '0');
  }

  /** The contents after `list_push_at(-3)`, which inserts at position 19. */
  lemma ContentsGrowBack()
    ensures Insert("de0fghijklmnopqrstuvw", 19, '0') == "de0fghijklmnopqrstu0vw"
  {
    InsertSplit("de0fghijklmnopqrstu", "vw", '0');
  }

  /** The contents after `list_pop_at(3)`. */
  lemma ContentsShrinkFront()
    ensures Delete("de0fghijklmnopqrstu0vw", 3) == "de0ghijklmnopqrstu0vw"
  {
    DeleteSplit("de0", 'f', "ghijklmnopqrstu0vw");
  }

  /** The contents after `list_pop_at(-4)`, which removes position 17. */
  lemma ContentsShrinkBack()
    ensures Delete("de0ghijklmnopqrstu0vw", 17) == "de0ghijklmnopqrst0vw"
  {
    DeleteSplit("de0ghijklmnopqrst", 'u', "0vw");
  }

  /** Filling a new list of one-byte items with 'a' to 'z' by `list_push_back`. */
  method Fill() returns (l: ListData<char>, next: nat)
    ensures fresh(l) && l.Valid() && l.Settled() && next > 0 && AllBelow(l, next)
    ensures l.itemSize == 1 && l.Items() == Alphabet()
  {
    l := new ListData<char>(1);
    next := 1;
    var c := 'a';
    while c <= 'z'
      invariant 'a' <= c <= ('z' as int + 1) as char
      invariant l.Valid() && next > 0 && AllBelow(l, next)
      invariant l.Items() == Alphabet()[..c as int - 'a' as int]
    {
      FreshAddr(l, next);
      l.PushBack(Addr(next), c);
      assert Alphabet()[..c as int - 'a' as int + 1] == Alphabet()[..c as int - 'a' as int] + [c];
      next := next + 1;
      c := (c as int + 1) as char;
    }
  }

  /** `list_foreach` with `print_my_item`: it visits every item and returns 0. */
  method Show(l: ListData<char>) returns (r: int)
    requires l.Valid() && l.Settled()
    ensures r == 0
  {
    r := l.Foreach(PrintItem);
    FirstNonZeroSpec(PrintItem, l.Items());
  }

  /** `list_foreach_reversed` with `print_my_item`: it visits every item and returns 0. */
  method ShowReversed(l: ListData<char>) returns (r: int)
    requires l.Valid() && l.Settled()
    ensures r == 0
  {
    r := l.ForeachReversed(PrintItem);
    FirstNonZeroSpec(PrintItem, Reverse(l.Items()));
  }

  /**
   * The queries on the filled list: not empty, 26 items of one byte, nodes of
   * one word and one byte, and the record plus 26 such nodes in all.
   */
  method Inspect(l: ListData<char>, recordSize: int, wordSize: int)
      returns (empty: bool, count: int, itemSize: int, nodeSize: int, currentSize: int)
    requires l.Valid() && l.itemSize == 1 && l.Items() == Alphabet()
    ensures !empty && count == 26 && itemSize == 1
    ensures nodeSize == wordSize + 1 && currentSize == recordSize + 26 * (wordSize + 1)
  {
    empty := l.IsEmpty();
    count := l.Num();
    itemSize := l.GetItemSize();
    nodeSize := l.NodeSize(wordSize);
    currentSize := l.CurrentSize(recordSize, wordSize);
  }

  /** Popping three items from the front and three from the back. */
  method Trim(l: ListData<char>, next: nat)
    requires l.Valid() && AllBelow(l, next) && l.Items() == Alphabet()
    modifies l
    ensures l.Valid() && l.Settled() && AllBelow(l, next)
    ensures l.Items() == "defghijklmnopqrstuvw"
  {
    var i := 0;
    while i < 3
      invariant 0 <= i <= 3
      invariant l.Valid() && AllBelow(l, next)
      invariant l.Items() == Alphabet()[i..26 - i]
    {
      l.PopFront();
      l.PopBack();
      i := i + 1;
    }
  }

  /** Pushing '0' at index 2, walking from the front. */
  method GrowFront(l: ListData<char>, next: nat)
    requires l.Valid() && next > 0 && AllBelow(l, next)
    requires l.Items() == "defghijklmnopqrstuvw"
    modifies l
    ensures l.Valid() && l.Settled() && AllBelow(l, next + 1)
    ensures l.Items() == "de0fghijklmnopqrstuvw"
  {
    assert l.num == 20;
    FreshAddr(l, next);
    BelowInsert(l.nodes, 2, Addr(next), next);
    ContentsGrowFront();
    l.PushAt(2, Addr(next), '0');
  }

  /** Pushing '0' at index -3, walking from the back: it lands one place further back. */
  method GrowBack(l: ListData<char>, next: nat)
    requires l.Valid() && next > 0 && AllBelow(l, next)
    requires l.Items() == "de0fghijklmnopqrstuvw"
    modifies l
    ensures l.Valid() && l.Settled() && l.Items() == "de0fghijklmnopqrstu0vw"
  {
    assert l.num == 21;
    FreshAddr(l, next);
    ContentsGrowBack();
    l.PushAt(-3, Addr(next), '0');
  }

  /** Popping at index 3. */
  method ShrinkFront(l: ListData<char>)
    requires l.Valid() && l.Items() == "de0fghijklmnopqrstu0vw"
    modifies l
    ensures l.Valid() && l.Items() == "de0ghijklmnopqrstu0vw"
  {
    assert l.num == 22;
    ContentsShrinkFront();
    l.PopAt(3);
  }

  /** Popping at index -4, the fourth item from the back. */
  method ShrinkBack(l: ListData<char>)
    requires l.Valid() && l.Items() == "de0ghijklmnopqrstu0vw"
    modifies l
    ensures l.Valid() && l.Settled() && l.Items() == "de0ghijklmnopqrst0vw"
  {
    assert l.num == 21;
    ContentsShrinkBack();
    l.PopAt(-4);
  }

  /** Reading the items at indices 1 and -2. */
  method Read(l: ListData<char>) returns (at1: char, atMinus2: char)
    requires l.Valid() && l.Items() == "de0fghijklmnopqrstu0vw"
    ensures at1 == 'e' && atMinus2 == 'v'
  {
    at1 := l.GetAt(1);
    atMinus2 := l.GetAt(-2);
  }

  /** `list_destroy` on the handle, which is then no longer valid. */
  method Finish(handle: ListHandle<char>) returns (validAfter: bool)
    requires handle.target != null && handle.target.Valid() && handle.target.Settled()
    modifies handle, handle.target
    ensures !validAfter
  {
    Destroy(handle);
    validAfter := handle.IsValid();
  }

  /**
   * The first part of `main`: filling a new list, then a traversal, the
   * handle's validity, the queries and a reversed traversal.
   */
  method Open(recordSize: int, wordSize: int)
      returns (l: ListData<char>, handle: ListHandle<char>, next: nat, validBefore: bool, empty: bool,
               count: int, itemSize: int, nodeSize: int, currentSize: int, traversals: seq<int>)
    ensures fresh(l) && fresh(handle) && handle.target == l
    ensures l.Valid() && l.Settled() && next > 0 && AllBelow(l, next) && l.Items() == Alphabet()
    ensures validBefore && !empty && count == 26 && itemSize == 1
    ensures nodeSize == wordSize + 1 && currentSize == recordSize + 26 * (wordSize + 1)
    ensures traversals == [0, 0]
  {
    l, next := Fill();
    var r := Show(l);
    handle := new ListHandle(l);
    validBefore := handle.IsValid();
    empty, count, itemSize, nodeSize, currentSize := Inspect(l, recordSize, wordSize);
    var s := ShowReversed(l);
    traversals := [r, s];
  }

  /**
   * The middle part of `main`: trimming, the two inserts, the two reads and
   * the two removals, with a traversal after each group of changes.
   */
  method Edit(l: ListData<char>, next: nat)
      returns (ghost trimmed: seq<char>, ghost grown: seq<char>, at1: char, atMinus2: char,
               ghost shrunk: seq<char>, traversals: seq<int>)
    requires l.Valid() && next > 0 && AllBelow(l, next) && l.Items() == Alphabet()
    modifies l
    ensures trimmed == "defghijklmnopqrstuvw"
    ensures grown == "de0fghijklmnopqrstu0vw"
    ensures at1 == 'e' && atMinus2 == 'v'
    ensures shrunk == "de0ghijklmnopqrst0vw"
    ensures l.Valid() && l.Settled() && traversals == [0, 0, 0]
  {
    Trim(l, next);
    trimmed := l.Items();
    var r1 := Show(l);
    GrowFront(l, next);
    GrowBack(l, next + 1);
    grown := l.Items();
    var r2 := Show(l);
    at1, atMinus2 := Read(l);
    ShrinkFront(l);
    ShrinkBack(l);
    shrunk := l.Items();
    var r3 := Show(l);
    traversals := [r1, r2, r3];
  }

  /**
   * `main` of `example.c`, with the platform's `sizeof(_ListData)` and
   * `sizeof(size_t)` as parameters.  The results are what it prints, in
   * order: the items after filling, the handle's validity, the queries on
   * the filled list, the items after trimming, after the two inserts, the
   * two items read, the items after the two removals and the handle's
   * validity after `list_destroy`; `traversals` collects the results of its
   * five traversals.
   */
  method Example(recordSize: int, wordSize: int)
      returns (ghost filled: seq<char>, validBefore: bool, empty: bool, count: int, itemSize: int,
               nodeSize: int, currentSize: int, ghost trimmed: seq<char>, ghost grown: seq<char>,
               at1: char, atMinus2: char, ghost shrunk: seq<char>, traversals: seq<int>, validAfter: bool)
    ensures filled == Alphabet() && validBefore
    ensures !empty && count == 26 && itemSize == 1
    ensures nodeSize == wordSize + 1 && currentSize == recordSize + 26 * (wordSize + 1)
    ensures trimmed == "defghijklmnopqrstuvw"
    ensures grown == "de0fghijklmnopqrstu0vw"
    ensures at1 == 'e' && atMinus2 == 'v'
    ensures shrunk == "de0ghijklmnopqrst0vw"
    ensures traversals == [0, 0, 0, 0, 0] && !validAfter
  {
    var l, handle, next, early;
    l, handle, next, validBefore, empty, count, itemSize, nodeSize, currentSize, early := Open(recordSize, wordSize);
    filled := l.Items();
    var edited;
    trimmed, grown, at1, atMinus2, shrunk, edited := Edit(l, next);
    validAfter := Finish(handle);
    traversals := early + edited;
  }
}
