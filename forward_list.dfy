// SingleLinkedList<Type> of custom_list.h: a singly linked forward list whose
// nodes hang off an embedded sentinel node and whose element count is cached.
// Positions (the source's iterators) are Node? values: the sentinel is
// before-begin, a node of the chain is an element position, null is end.

module ForwardList {
  /** A node of the chain: one element and the link to the next node, null
      after the last one. */
  class Node<T> {
    var value: T
    var next: Node?<T>

    constructor (value: T, next: Node?<T>)
      ensures this.value == value && this.next == next
    {
      this.value := value;
      this.next := next;
    }
  }

  /** ns is exactly the chain reached from first by following next until null. */
  ghost predicate Chain<T>(first: Node?<T>, ns: seq<Node<T>>)
    reads ns
  {
    (if ns == [] then first == null else first == ns[0]) &&
    (forall i :: 0 <= i < |ns| - 1 ==> ns[i].next == ns[i + 1]) &&
    (ns != [] ==> ns[|ns| - 1].next == null)
  }

  /** ns is the chain from first and vs the elements its nodes hold. */
  ghost predicate Holds<T>(first: Node?<T>, ns: seq<Node<T>>, vs: seq<T>)
    reads ns
  {
    Chain(first, ns) && |vs| == |ns| &&
    forall i :: 0 <= i < |ns| ==> ns[i].value == vs[i]
  }

  /** A chain whose nodes are untouched is still the same chain. */
  twostate lemma HoldsFrame<T>(new first: Node?<T>, new ns: seq<Node<T>>, new vs: seq<T>)
    requires old(allocated(first) && allocated(ns) && allocated(vs))
    requires old(Holds(first, ns, vs))
    requires forall i :: 0 <= i < |ns| ==> unchanged(ns[i])
    ensures Holds(first, ns, vs)
  {
  }

  /** Linking a fresh node n in at index k of l's chain: the predecessor (the
      node at k - 1, or the sentinel when k is 0) now leads to n and n to the
      old successor; no other node changed. (The list is passed whole so that
      the lemma has a single parameter from the earlier state.) */
  twostate lemma HoldsInsert<T(0)>(l: SingleLinkedList<T>, new k: nat, new n: Node<T>)
    requires old(Holds(l.head.next, l.Nodes, l.Contents))
    requires var ns, vs := old(l.Nodes), old(l.Contents);
      k <= |ns| && n !in ns &&
      (k > 0 ==> ns[k - 1].next == n && ns[k - 1].value == vs[k - 1]) &&
      n.next == (if k < |ns| then ns[k] else null) &&
      forall i :: 0 <= i < |ns| && i != k - 1 ==> unchanged(ns[i])
    ensures var ns, vs := old(l.Nodes), old(l.Contents);
      Holds(if k == 0 then n else old(l.head.next), ns[..k] + [n] + ns[k..], vs[..k] + [n.value] + vs[k..])
  {
    var ns, vs := old(l.Nodes), old(l.Contents);
    var ms, ws := ns[..k] + [n] + ns[k..], vs[..k] + [n.value] + vs[k..];
    SpliceIn(ns, k, n);
    SpliceIn(vs, k, n.value);
    forall i | 0 <= i < |ms| - 1
      ensures ms[i].next == ms[i + 1]
    {
      if i + 1 < k {
        assert ms[i] == ns[i] && ms[i + 1] == ns[i + 1];
      } else if i + 1 == k {
        assert ms[i] == ns[k - 1];
      } else if i > k {
        assert ms[i] == ns[i - 1] && ms[i + 1] == ns[i];
      }
    }
    assert ms[|ms| - 1].next == null by {
      if k < |ns| {
        assert ms[|ms| - 1] == ns[|ns| - 1];
      }
    }
    forall i | 0 <= i < |ms|
      ensures ms[i].value == ws[i]
    {
      if i < k {
        assert ms[i] == ns[i];
      } else if i > k {
        assert ms[i] == ns[i - 1];
      }
    }
  }

  /** Unlinking the node at index k of l's chain: its predecessor (the node
      at k - 1, or the sentinel when k is 0) now leads to its old successor,
      link; no other node changed. */
  twostate lemma HoldsErase<T(0)>(l: SingleLinkedList<T>, new k: nat, new link: Node?<T>)
    requires old(Holds(l.head.next, l.Nodes, l.Contents))
    requires var ns, vs := old(l.Nodes), old(l.Contents);
      k < |ns| && link == (if k + 1 < |ns| then ns[k + 1] else null) &&
      (k > 0 ==> ns[k - 1].next == link && ns[k - 1].value == vs[k - 1]) &&
      forall i :: 0 <= i < |ns| && i != k - 1 ==> unchanged(ns[i])
    ensures var ns, vs := old(l.Nodes), old(l.Contents);
      Holds(if k == 0 then link else old(l.head.next), ns[..k] + ns[k + 1..], vs[..k] + vs[k + 1..])
  {
    var ns, vs := old(l.Nodes), old(l.Contents);
    var ms, ws := ns[..k] + ns[k + 1..], vs[..k] + vs[k + 1..];
    SpliceOut(ns, k);
    SpliceOut(vs, k);
    forall i | 0 <= i < |ms| - 1
      ensures ms[i].next == ms[i + 1]
    {
      if i + 1 < k {
        assert ms[i] == ns[i] && ms[i + 1] == ns[i + 1];
      } else if i + 1 == k {
        assert ms[i] == ns[k - 1];
      } else {
        assert ms[i] == ns[i + 1] && ms[i + 1] == ns[i + 2];
      }
    }
    assert ms != [] ==> ms[|ms| - 1].next == null by {
      if k < |ms| {
        assert ms[|ms| - 1] == ns[|ns| - 1];
      }
    }
    forall i | 0 <= i < |ms|
      ensures ms[i].value == ws[i]
    {
      if i < k {
        assert ms[i] == ns[i];
      } else {
        assert ms[i] == ns[i + 1];
      }
    }
  }

  ghost predicate Distinct<T>(ns: seq<T>)
  {
    forall i, j :: 0 <= i < j < |ns| ==> ns[i] != ns[j]
  }

  /** Copy outcomes: copyOk(k, x) says whether the k-th element copy of an
      operation, of value x, succeeds. Numbering copies rather than values
      lets a later copy of an equal value fail after an earlier one
      succeeded, as a copy that allocates or counts down may. */
  ghost predicate CopiesSucceed<T>(copyOk: (nat, T) -> bool, start: nat, s: seq<T>)
  {
    forall j :: 0 <= j < |s| ==> copyOk(start + j, s[j])
  }

  /** One more copy of a prefix: the copies of s's first i + 1 elements
      succeed when those of the first i do and the next one does. */
  lemma CopiesSucceedNext<T>(copyOk: (nat, T) -> bool, start: nat, s: seq<T>, i: nat)
    requires i < |s| && CopiesSucceed(copyOk, start, s[..i]) && copyOk(start + i, s[i])
    ensures CopiesSucceed(copyOk, start, s[..i + 1])
  {
    assert s[..i + 1] == s[..i] + [s[i]];
  }

  /** Indexing into s with x inserted at index k. */
  lemma SpliceIn<X>(s: seq<X>, k: nat, x: X)
    requires k <= |s|
    ensures var t := s[..k] + [x] + s[k..];
      |t| == |s| + 1 && t[k] == x &&
      (forall i :: 0 <= i < k ==> t[i] == s[i]) &&
      (forall i :: k < i < |t| ==> t[i] == s[i - 1])
  {
  }

  /** Indexing into s with the element at index k removed. */
  lemma SpliceOut<X>(s: seq<X>, k: nat)
    requires k < |s|
    ensures var t := s[..k] + s[k + 1..];
      |t| == |s| - 1 &&
      (forall i :: 0 <= i < k ==> t[i] == s[i]) &&
      (forall i :: k <= i < |t| ==> t[i] == s[i + 1])
  {
  }

  /** Erasing after the position insert used removes exactly the element
      insert added: on the element sequence, erase undoes insert. */
  lemma EraseUndoesInsert<X>(s: seq<X>, k: nat, x: X)
    requires k <= |s|
    ensures var t := s[..k] + [x] + s[k..]; t[..k] + t[k + 1..] == s
  {
    var t := s[..k] + [x] + s[k..];
    assert t[..k] == s[..k] && t[k + 1..] == s[k..];
  }

  lemma DistinctSpliceIn<X>(s: seq<X>, k: nat, x: X)
    requires k <= |s| && Distinct(s) && x !in s
    ensures Distinct(s[..k] + [x] + s[k..])
  {
    SpliceIn(s, k, x);
  }

  lemma DistinctSpliceOut<X>(s: seq<X>, k: nat)
    requires k < |s| && Distinct(s)
    ensures Distinct(s[..k] + s[k + 1..]) && s[k] !in s[..k] + s[k + 1..]
  {
    SpliceOut(s, k);
  }

  /** The index of an occurrence of x in s. */
  ghost function IndexOf<X>(s: seq<X>, x: X): (i: nat)
    requires x in s
    ensures i < |s| && s[i] == x
  {
    if s[0] == x then 0 else IndexOf(s[1..], x) + 1
  }

  /** A node whose next is the start of a chain starts the longer chain. */
  lemma ChainPrepend<T>(n: Node<T>, ns: seq<Node<T>>)
    requires Chain(n.next, ns)
    ensures Chain(n, [n] + ns)
  {
    var ms := [n] + ns;
    forall i | 0 <= i < |ms| - 1
      ensures ms[i].next == ms[i + 1]
    {
      if i > 0 {
        assert ms[i] == ns[i - 1];
      }
    }
  }

  /** The rest of a chain after its first node is the chain of that node's next. */
  lemma ChainTail<T>(first: Node?<T>, ns: seq<Node<T>>)
    requires Chain(first, ns) && ns != []
    ensures Chain(ns[0].next, ns[1..])
  {
  }

  class SingleLinkedList<T(0)> {
    /** The embedded sentinel: its next is the first element node; its own
        value-initialised element is not part of the list. */
    const head: Node<T>
    /** The cached element count. */
    var size: nat

    // The abstract view: the elements in order and the nodes that hold them.
    ghost var Contents: seq<T>
    ghost var Nodes: seq<Node<T>>

    /** The objects the list owns: itself (with its sentinel) and its nodes. */
    ghost function Repr(): set<object>
      reads this
    {
      {this, head} + set n | n in Nodes
    }

    /** The chain hanging off the sentinel is Nodes, without repetition, and
        holds Contents; everything but the cached count. */
    ghost predicate Linked()
      reads this, Repr()
    {
      head !in Nodes && Distinct(Nodes) && Holds(head.next, Nodes, Contents)
    }

    /** The object invariant: the chain is well formed and the cached count
        equals the number of nodes reachable from the sentinel. */
    ghost predicate Valid()
      reads this, Repr()
    {
      Linked() && size == |Contents|
    }

    /** The index in Nodes of the node following position p: 0 for the
        sentinel, i + 1 for the node at index i. */
    ghost function Slot(p: Node?<T>): (k: nat)
      reads this, Repr()
      requires Valid() && (p == head || p in Nodes)
      ensures k <= |Nodes| && (k == 0 <==> p == head) && (k > 0 ==> Nodes[k - 1] == p)
    {
      if p == head then 0 else IndexOf(Nodes, p) + 1
    }

    /** The last node of the chain, or the sentinel when there is none. */
    ghost function Last(): (p: Node<T>)
      reads this
      ensures p in Repr()
    {
      if Nodes == [] then head else Nodes[|Nodes| - 1]
    }

    constructor ()
      ensures Valid() && fresh(Repr()) && Contents == []
    {
      var blank: T := *;
      head := new Node(blank, null);
      size := 0;
      Contents, Nodes := [], [];
    }

    /** Construction from an initializer list: assign over its range. */
    constructor FromValues(values: seq<T>)
      ensures Valid() && fresh(Repr()) && Contents == values
    {
      var blank: T := *;
      head := new Node(blank, null);
      size := 0;
      Contents, Nodes := [], [];
      new;
      var ok := AssignRange(values, (_, _) => true);
    }

    /** Copy construction: assign over the other list's range, into nodes
        of its own. */
    constructor Copy(other: SingleLinkedList<T>)
      requires other.Valid()
      ensures Valid() && fresh(Repr()) && Contents == other.Contents
      ensures other.Valid()
    {
      var blank: T := *;
      head := new Node(blank, null);
      size := 0;
      Contents, Nodes := [], [];
      new;
      var ok := AssignList(other, (_, _) => true);
    }

    function Size(): (n: nat)
      reads this, Repr()
      requires Valid()
      ensures n == |Contents|
    {
      size
    }

    function Empty(): (b: bool)
      reads this, Repr()
      requires Valid()
      ensures b <==> Contents == []
    {
      size == 0
    }

    function Begin(): (p: Node?<T>)
      reads this, Repr()
      requires Valid()
      ensures p == if Nodes == [] then null else Nodes[0]
    {
      head.next
    }

    function End(): (p: Node?<T>)
      reads this, Repr()
      requires Valid()
      ensures p != head && p !in Nodes
      ensures Nodes != [] ==> Next(Nodes[|Nodes| - 1]) == p
      ensures Contents == [] ==> p == Begin()
    {
      null
    }

    function BeforeBegin(): (p: Node?<T>)
      reads this, Repr()
      requires Valid()
      ensures p == head && Slot(p) == 0 && Next(p) == Begin()
    {
      head
    }

    /** The place a position denotes: 0 for before-begin, i + 1 for the node
        at index i, |Nodes| + 1 for end. */
    ghost function Place(p: Node?<T>): (k: nat)
      reads this, Repr()
      requires Valid() && (p == null || p == head || p in Nodes)
      ensures k <= |Nodes| + 1 && (p != null ==> k == Slot(p))
    {
      if p == null then |Nodes| + 1 else Slot(p)
    }

    /** The iterators' operator==: two positions of this list are equal
        exactly when they denote the same place (nodes are never shared). */
    function SamePosition(p: Node?<T>, q: Node?<T>): (b: bool)
      reads this, Repr()
      requires Valid() && (p == null || p == head || p in Nodes) && (q == null || q == head || q in Nodes)
      ensures b <==> Place(p) == Place(q)
    {
      p == q
    }

    /** operator++ on a position of this list. */
    function Next(p: Node?<T>): (q: Node?<T>)
      reads this, Repr()
      requires Valid() && (p == head || p in Nodes)
      ensures q == if Slot(p) < |Nodes| then Nodes[Slot(p)] else null
    {
      p.next
    }

    /** operator* on a position of this list. At before-begin it yields the
        sentinel's own element, since the source asserts only that the
        position is not end; the model leaves that element arbitrary. */
    function Get(p: Node?<T>): (v: T)
      reads this, Repr()
      requires Valid() && (p == head || p in Nodes)
      ensures p != head ==> v == Contents[Slot(p) - 1]
    {
      p.value
    }

    method PushFront(value: T)
      requires Valid()
      modifies this, head
      ensures Valid()
      ensures Contents == [value] + old(Contents)
      ensures fresh(Nodes[0]) && Nodes[1..] == old(Nodes) && Repr() == old(Repr()) + {Nodes[0]}
    {
      var n := new Node(value, head.next);
      head.next := n;
      size := size + 1;
      assert Chain(n.next, Nodes);
      ChainPrepend(n, Nodes);
      Nodes := [n] + Nodes;
      Contents := [value] + Contents;
    }

    method PopFront()
      requires Valid()
      requires size != 0
      modifies this, head
      ensures Valid()
      ensures Contents == old(Contents)[1..] && Nodes == old(Nodes)[1..]
      ensures old(Nodes)[0] !in Repr()
    {
      ChainTail(head.next, Nodes);
      var newHead := head.next.next;
      head.next := newHead;
      size := size - 1;
      Nodes, Contents := Nodes[1..], Contents[1..];
    }

    /** Splices a new node holding value right after pos and returns its
        position; no other node is touched. */
    method Insert(pos: Node?<T>, value: T) returns (it: Node<T>)
      requires Valid()
      requires pos != null && (pos == head || pos in Nodes)
      modifies this, pos
      ensures Valid()
      ensures var k := old(Slot(pos));
        Contents == old(Contents)[..k] + [value] + old(Contents)[k..] &&
        Nodes == old(Nodes)[..k] + [it] + old(Nodes)[k..]
      ensures fresh(it) && pos.next == it
    {
      ghost var k, N := Slot(pos), Nodes;
      assert pos.next == if k < |N| then N[k] else null;
      var n := new Node(value, pos.next);
      pos.next := n;
      size := size + 1;
      Nodes := N[..k] + [n] + N[k..];
      Contents := Contents[..k] + [value] + Contents[k..];
      it := pos.next;
      DistinctSpliceIn(N, k, n);
      HoldsInsert(this, k, n);
    }

    /** Unlinks the node right after pos and returns the position that now
        follows pos (end when there is none). */
    method Erase(pos: Node?<T>) returns (it: Node?<T>)
      requires Valid()
      requires size != 0
      requires pos != null && (pos == head || pos in Nodes)
      requires pos.next != null
      modifies this, pos
      ensures Valid()
      ensures var k := old(Slot(pos));
        k < |old(Nodes)| &&
        Contents == old(Contents)[..k] + old(Contents)[k + 1..] &&
        Nodes == old(Nodes)[..k] + old(Nodes)[k + 1..] &&
        it == (if k < |Nodes| then Nodes[k] else null) &&
        old(Nodes)[k] !in Repr()
    {
      ghost var k, N := Slot(pos), Nodes;
      assert pos.next == N[k];
      var temp := pos.next.next;
      pos.next := temp;
      size := size - 1;
      Nodes := N[..k] + N[k + 1..];
      Contents := Contents[..k] + Contents[k + 1..];
      it := pos.next;
      SpliceOut(N, k);
      DistinctSpliceOut(N, k);
      HoldsErase(this, k, temp);
      assert it == if k < |Nodes| then Nodes[k] else null;
    }

    method Clear()
      requires Valid()
      modifies this, head
      ensures Valid() && Contents == [] && Nodes == []
    {
      while head.next != null
        invariant Linked()
        decreases |Nodes|
      {
        ChainTail(head.next, Nodes);
        var newHead := head.next.next;
        head.next := newHead;
        Nodes, Contents := Nodes[1..], Contents[1..];
      }
      size := 0;
    }

    /** Exchanges the sentinel links and the counts; no node is created or
        changed, so positions follow their elements into the other list. */
    method Swap(other: SingleLinkedList<T>)
      requires Valid() && other.Valid()
      requires this == other || Repr() !! other.Repr()
      modifies this, head, other, other.head
      ensures Valid() && other.Valid()
      ensures Contents == old(other.Contents) && other.Contents == old(Contents)
      ensures Nodes == old(other.Nodes) && other.Nodes == old(Nodes)
    {
      assert head !in other.Nodes && other.head !in Nodes;
      other.head.next, head.next := head.next, other.head.next;
      other.size, size := size, other.size;
      other.Nodes, Nodes := Nodes, other.Nodes;
      other.Contents, Contents := Contents, other.Contents;
      HoldsFrame(head.next, Nodes, Contents);
      HoldsFrame(other.head.next, other.Nodes, other.Contents);
    }

    /** One step of assign: links a fresh node holding value after the last
        node (the cursor) and counts it. */
    method Append(cursor: Node<T>, value: T) returns (n: Node<T>)
      requires Valid() && cursor == Last()
      modifies this, cursor
      ensures Valid() && n == Last() && fresh(n) && Repr() == old(Repr()) + {n}
      ensures Contents == old(Contents) + [value] && Nodes == old(Nodes) + [n]
    {
      n := new Node(value, null);
      cursor.next := n;
      size := size + 1;
      Nodes, Contents := Nodes + [n], Contents + [value];
      forall i | 0 <= i < |Nodes| - 1
        ensures Nodes[i].next == Nodes[i + 1]
      {
        if i < |Nodes| - 2 {
          assert Nodes[i] == old(Nodes)[i] && Nodes[i + 1] == old(Nodes)[i + 1];
        }
      }
    }

    /** One round of the copying loops below: appends x, the element at
        index i of s, to a list holding the first i elements of s. */
    method AppendNext(cursor: Node<T>, ghost s: seq<T>, ghost i: nat, x: T) returns (n: Node<T>)
      requires Valid() && cursor == Last() && i < |s| && x == s[i] && Contents == s[..i]
      modifies this, cursor
      ensures Valid() && n == Last() && fresh(n) && Repr() == old(Repr()) + {n}
      ensures Contents == s[..i + 1]
    {
      n := Append(cursor, x);
      assert s[..i + 1] == s[..i] + [x];
    }

    /** The loop of assign over an initializer list: copies values in order
        into fresh nodes of a fresh temporary list, stopping at the first
        value whose copy fails. */
    static method CopyOfValues(values: seq<T>, copyOk: (nat, T) -> bool) returns (ok: bool, tmp: SingleLinkedList<T>)
      ensures tmp.Valid() && fresh(tmp.Repr())
      ensures ok <==> CopiesSucceed(copyOk, 0, values)
      ensures ok ==> tmp.Contents == values
    {
      tmp := new SingleLinkedList<T>();
      var cursor := tmp.head;
      var i := 0;
      label LoopEntry:
      while i < |values| && copyOk(i, values[i])
        modifies tmp, tmp.head
        invariant 0 <= i <= |values|
        invariant tmp.Valid() && fresh(tmp.Repr())
        invariant tmp.Contents == values[..i] && cursor == tmp.Last()
        invariant cursor == tmp.head || fresh@LoopEntry(cursor)
        invariant CopiesSucceed(copyOk, 0, values[..i])
      {
        cursor := tmp.AppendNext(cursor, values, i, values[i]);
        CopiesSucceedNext(copyOk, 0, values, i);
        i := i + 1;
      }
      ok := i == |values|;
      if ok {
        assert values[..i] == values;
      } else {
        assert !copyOk(i, values[i]);
      }
    }

    /** assign over an initializer list: builds the copy in a temporary and
        commits it with Swap. copyOk(k, x) says whether the k-th element
        copy, of value x, succeeds; a failing copy abandons the temporary and leaves this list
        as it was. */
    method AssignRange(values: seq<T>, copyOk: (nat, T) -> bool) returns (ok: bool)
      requires Valid()
      modifies this, head
      ensures Valid()
      ensures ok <==> CopiesSucceed(copyOk, 0, values)
      ensures ok ==> Contents == values && fresh(Repr() - {this, head})
      ensures !ok ==> Contents == old(Contents) && Nodes == old(Nodes)
    {
      var tmp;
      ok, tmp := CopyOfValues(values, copyOk);
      if ok {
        Swap(tmp);
      }
    }

    /** The loop of assign over another list's range: copies other's elements
        in order into fresh nodes of a fresh temporary list, stopping at the
        first element whose copy fails. */
    static method CopyOf(other: SingleLinkedList<T>, copyOk: (nat, T) -> bool) returns (ok: bool, tmp: SingleLinkedList<T>)
      requires other.Valid()
      ensures tmp.Valid() && fresh(tmp.Repr())
      ensures ok <==> CopiesSucceed(copyOk, 0, other.Contents)
      ensures ok ==> tmp.Contents == other.Contents
    {
      tmp := new SingleLinkedList<T>();
      var cursor := tmp.head;
      var from := other.head.next;
      var i := 0;
      ghost var N, C := other.Nodes, other.Contents;
      label LoopEntry:
      while from != null && copyOk(i, from.value)
        modifies tmp, tmp.head
        invariant 0 <= i <= |N|
        invariant from == if i < |N| then N[i] else null
        invariant tmp.Valid() && fresh(tmp.Repr())
        invariant tmp.Contents == C[..i] && cursor == tmp.Last()
        invariant cursor == tmp.head || fresh@LoopEntry(cursor)
        invariant CopiesSucceed(copyOk, 0, C[..i])
        decreases |N| - i
      {
        cursor := tmp.AppendNext(cursor, C, i, from.value);
        CopiesSucceedNext(copyOk, 0, C, i);
        from := from.next;
        i := i + 1;
      }
      ok := from == null;
      if ok {
        assert C[..i] == C;
      } else {
        assert !copyOk(i, C[i]);
      }
    }

    /** assign over another list's range (the copy constructor's step): builds
        the copy in a temporary and commits it with Swap; a failing copy
        leaves this list as it was. */
    method AssignList(other: SingleLinkedList<T>, copyOk: (nat, T) -> bool) returns (ok: bool)
      requires Valid() && other.Valid() && Repr() !! other.Repr()
      modifies this, head
      ensures Valid() && other.Valid() && other.Contents == old(other.Contents)
      ensures ok <==> CopiesSucceed(copyOk, 0, other.Contents)
      ensures ok ==> Contents == other.Contents && fresh(Repr() - {this, head})
      ensures !ok ==> Contents == old(Contents) && Nodes == old(Nodes)
    {
      var tmp;
      ok, tmp := CopyOf(other, copyOk);
      if ok {
        ghost var R := tmp.Repr() - {tmp, tmp.head};
        Swap(tmp);
        assert Repr() - {this, head} <= R;
        HoldsFrame(other.head.next, other.Nodes, other.Contents);
      }
    }

    /** operator=: a no-op on self-assignment; otherwise clears first when rhs
        is empty, copies rhs into a temporary and swaps it in. A failing
        element copy leaves this list as it was. */
    method CopyAssign(rhs: SingleLinkedList<T>, copyOk: (nat, T) -> bool) returns (ok: bool)
      requires Valid() && rhs.Valid()
      requires this == rhs || Repr() !! rhs.Repr()
      modifies this, head
      ensures Valid() && rhs.Valid()
      ensures ok <==> this == rhs || CopiesSucceed(copyOk, 0, rhs.Contents)
      ensures ok && this != rhs ==> Contents == rhs.Contents && fresh(Repr() - {this, head})
      ensures !ok || this == rhs ==> Contents == old(Contents) && Nodes == old(Nodes)
    {
      if this != rhs {
        if rhs.Empty() {
          Clear();
        }
        var rhsCopy;
        ok, rhsCopy := CopyOf(rhs, copyOk);
        if ok {
          Swap(rhsCopy);
        }
      } else {
        ok := true;
      }
    }
  }

  /** The free swap(lhs, rhs). */
  method Swap<T(0)>(lhs: SingleLinkedList<T>, rhs: SingleLinkedList<T>)
    requires lhs.Valid() && rhs.Valid()
    requires lhs == rhs || lhs.Repr() !! rhs.Repr()
    modifies lhs, lhs.head, rhs, rhs.head
    ensures lhs.Valid() && rhs.Valid()
    ensures lhs.Contents == old(rhs.Contents) && rhs.Contents == old(lhs.Contents)
    ensures lhs.Nodes == old(rhs.Nodes) && rhs.Nodes == old(lhs.Nodes)
  {
    lhs.Swap(rhs);
  }

  /** insert followed by erase at the same position: the erased node is
      the inserted one, so the list holds its old elements in its old
      nodes again. */
  method InsertThenErase<T(0)>(l: SingleLinkedList<T>, pos: Node?<T>, value: T)
    requires l.Valid()
    requires pos != null && (pos == l.head || pos in l.Nodes)
    modifies l, pos
    ensures l.Valid() && l.Contents == old(l.Contents) && l.Nodes == old(l.Nodes)
  {
    ghost var k, C, N := l.Slot(pos), l.Contents, l.Nodes;
    var it := l.Insert(pos, value);
    assert l.Slot(pos) == k;
    var after := l.Erase(pos);
    EraseUndoesInsert(C, k, value);
    EraseUndoesInsert(N, k, it);
  }

  /** Swapping twice, first with the member swap and then with the free
      one, gives each list back its own elements and its own nodes. */
  method SwapTwice<T(0)>(first: SingleLinkedList<T>, second: SingleLinkedList<T>)
    requires first.Valid() && second.Valid() && first.Repr() !! second.Repr()
    modifies first, first.head, second, second.head
    ensures first.Valid() && second.Valid()
    ensures first.Contents == old(first.Contents) && second.Contents == old(second.Contents)
    ensures first.Nodes == old(first.Nodes) && second.Nodes == old(second.Nodes)
  {
    first.Swap(second);
    Swap(first, second);
  }
}
