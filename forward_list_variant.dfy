// CustomForwardList.cpp: a second SingleLinkedList over the same node
// structure, modelled where it differs from custom_list.h. Its assign builds
// the copy by pushing every element to the front of one temporary and then
// every element of that temporary to the front of another, its swap goes
// through two local temporaries, its operator= has no separate empty case,
// and its free == and <= are defined differently. The members it shares
// with the header in behaviour (push_front, insert, erase, pop_front, clear,
// empty, size, the iterators, the free swap, <, >, >=) are the ForwardList
// ones.

module ForwardListVariant {
  import opened StdAlgorithms
  import opened ForwardList
  import ListOperators

  /** s in reverse order. */
  function Reverse<X>(s: seq<X>): (r: seq<X>)
    ensures |r| == |s|
  {
    if s == [] then [] else Reverse(s[1..]) + [s[0]]
  }

  /** The element at index i of the reversal is the one at |s| - 1 - i. */
  lemma {:induction false} ReverseAt<X>(s: seq<X>, i: int)
    requires 0 <= i < |s|
    ensures Reverse(s)[i] == s[|s| - 1 - i]
  {
    if i < |s| - 1 {
      ReverseAt(s[1..], i);
    }
  }

  /** Pushing x to the front of the reversal of s reverses s + [x]. */
  lemma {:induction false} ReverseSnoc<X>(s: seq<X>, x: X)
    ensures Reverse(s + [x]) == [x] + Reverse(s)
  {
    if s != [] {
      assert (s + [x])[1..] == s[1..] + [x];
      ReverseSnoc(s[1..], x);
    }
  }

  /** One more round of push-front: the reversal of the next longer prefix
      starts with the next element. */
  lemma ReversePrefix<X>(s: seq<X>, i: nat)
    requires i < |s|
    ensures Reverse(s[..i + 1]) == [s[i]] + Reverse(s[..i])
  {
    assert s[..i + 1] == s[..i] + [s[i]];
    ReverseSnoc(s[..i], s[i]);
  }

  /** Reversing twice restores the order: this is why two rounds of
      push-front reproduce the source order. */
  lemma {:induction false} ReverseReverse<X>(s: seq<X>)
    ensures Reverse(Reverse(s)) == s
  {
    var r := Reverse(Reverse(s));
    forall i | 0 <= i < |s|
      ensures r[i] == s[i]
    {
      ReverseAt(Reverse(s), i);
      ReverseAt(s, |s| - 1 - i);
    }
  }

  /** The copies of assign as this variant writes it: |s| copies into
      tmp_reverse, numbered from 0 in s's order, then |s| more into tmp,
      numbered on from |s| in tmp_reverse's (reversed) order. */
  ghost predicate TwoRoundsSucceed<T>(copyOk: (nat, T) -> bool, s: seq<T>)
  {
    CopiesSucceed(copyOk, 0, s) && CopiesSucceed(copyOk, |s|, Reverse(s))
  }

  /** Each element is copied twice: the one at index j as copy j of the
      first round and as copy 2|s| - 1 - j of the second. */
  lemma TwoRoundsCopyEachTwice<T>(copyOk: (nat, T) -> bool, s: seq<T>)
    ensures TwoRoundsSucceed(copyOk, s) <==>
      forall j :: 0 <= j < |s| ==> copyOk(j, s[j]) && copyOk(2 * |s| - 1 - j, s[j])
  {
    var r := Reverse(s);
    forall j | 0 <= j < |s|
      ensures r[|s| - 1 - j] == s[j]
    {
      ReverseAt(s, |s| - 1 - j);
    }
    if forall j :: 0 <= j < |s| ==> copyOk(j, s[j]) && copyOk(2 * |s| - 1 - j, s[j]) {
      forall i | 0 <= i < |r|
        ensures copyOk(|s| + i, r[i])
      {
        assert r[i] == s[|s| - 1 - i];
      }
    }
    if TwoRoundsSucceed(copyOk, s) {
      forall j | 0 <= j < |s|
        ensures copyOk(2 * |s| - 1 - j, s[j])
      {
        assert copyOk(|s| + (|s| - 1 - j), r[|s| - 1 - j]);
      }
    }
  }

  /** The second round can fail after the first succeeded: with one
      element and only the first copy succeeding (a copy that allocates
      once more than memory allows), tmp_reverse is built and tmp is not. */
  lemma SecondRoundCanFail<T>(x: T)
    ensures var copyOk := (k: nat, _: T) => k == 0;
      CopiesSucceed(copyOk, 0, [x]) && !TwoRoundsSucceed(copyOk, [x])
  {
    var copyOk := (k: nat, _: T) => k == 0;
    assert Reverse([x]) == [x];
    assert !copyOk(1 + 0, Reverse([x])[0]);
  }

  /** One round of a loop below: pushing the element at index i of s to the
      front of a list holding the reversal of s's first i elements leaves it
      holding the reversal of the first i + 1. */
  method PushFrontNext<T(0)>(tmp: SingleLinkedList<T>, ghost s: seq<T>, ghost i: nat, x: T)
    requires tmp.Valid() && i < |s| && x == s[i] && tmp.Contents == Reverse(s[..i])
    modifies tmp, tmp.head
    ensures tmp.Valid() && tmp.Contents == Reverse(s[..i + 1])
    ensures tmp.Repr() == old(tmp.Repr()) + {tmp.Nodes[0]} && fresh(tmp.Nodes[0])
  {
    tmp.PushFront(x);
    ReversePrefix(s, i);
  }

  /** One loop of assign over another list, into a fresh temporary: walks
      src from begin to end, pushing a copy of each element to the front of
      the temporary, which so holds src's elements in reverse order. Stops
      at the first element whose copy fails. */
  method ReversedCopy<T(0)>(src: SingleLinkedList<T>, copyOk: (nat, T) -> bool, start: nat) returns (ok: bool, tmp: SingleLinkedList<T>)
    requires src.Valid()
    ensures src.Valid() && tmp.Valid() && fresh(tmp.Repr())
    ensures ok <==> CopiesSucceed(copyOk, start, src.Contents)
    ensures ok ==> tmp.Contents == Reverse(src.Contents)
  {
    tmp := new SingleLinkedList<T>();
    var it := src.head.next;
    var i := 0;
    ghost var N, C := src.Nodes, src.Contents;
    while it != null && copyOk(start + i, it.value)
      modifies tmp, tmp.head
      invariant 0 <= i <= |N|
      invariant it == if i < |N| then N[i] else null
      invariant tmp.Valid() && fresh(tmp.Repr())
      invariant tmp.Contents == Reverse(C[..i])
      invariant CopiesSucceed(copyOk, start, C[..i])
      decreases |N| - i
    {
      PushFrontNext(tmp, C, i, it.value);
      CopiesSucceedNext(copyOk, start, C, i);
      it := it.next;
      i := i + 1;
    }
    ok := it == null;
    if ok {
      assert C[..i] == C;
    } else {
      assert !copyOk(start + i, C[i]);
    }
  }

  /** The same loop over an initializer list. */
  method ReversedCopyOfValues<T(0)>(values: seq<T>, copyOk: (nat, T) -> bool) returns (ok: bool, tmp: SingleLinkedList<T>)
    ensures tmp.Valid() && fresh(tmp.Repr())
    ensures ok <==> CopiesSucceed(copyOk, 0, values)
    ensures ok ==> tmp.Contents == Reverse(values)
  {
    tmp := new SingleLinkedList<T>();
    var i := 0;
    while i < |values| && copyOk(i, values[i])
      modifies tmp, tmp.head
      invariant 0 <= i <= |values|
      invariant tmp.Valid() && fresh(tmp.Repr())
      invariant tmp.Contents == Reverse(values[..i])
      invariant CopiesSucceed(copyOk, 0, values[..i])
    {
      PushFrontNext(tmp, values, i, values[i]);
      CopiesSucceedNext(copyOk, 0, values, i);
      i := i + 1;
    }
    ok := i == |values|;
    if ok {
      assert values[..i] == values;
    } else {
      assert !copyOk(i, values[i]);
    }
  }

  /** swap as written in this variant: the first list's link and count go
      through two temporaries. */
  method Swap<T(0)>(list: SingleLinkedList<T>, other: SingleLinkedList<T>)
    requires list.Valid() && other.Valid()
    requires list == other || list.Repr() !! other.Repr()
    modifies list, list.head, other, other.head
    ensures list.Valid() && other.Valid()
    ensures list.Contents == old(other.Contents) && other.Contents == old(list.Contents)
    ensures list.Nodes == old(other.Nodes) && other.Nodes == old(list.Nodes)
  {
    var tempHead := list.head.next;
    var tempSize := list.size;
    ghost var tempNodes, tempContents := list.Nodes, list.Contents;

    list.head.next := other.head.next;
    list.size := other.size;
    list.Nodes, list.Contents := other.Nodes, other.Contents;

    other.head.next := tempHead;
    other.size := tempSize;
    other.Nodes, other.Contents := tempNodes, tempContents;

    HoldsFrame(list.head.next, list.Nodes, list.Contents);
    HoldsFrame(other.head.next, other.Nodes, other.Contents);
  }

  /** The two loops of assign over another list: elem reversed into
      tmp_reverse, tmp_reverse reversed into tmp. Reversing twice restores
      elem's order, so tmp holds a copy of elem in fresh nodes. */
  method TwiceReversedCopy<T(0)>(elem: SingleLinkedList<T>, copyOk: (nat, T) -> bool) returns (ok: bool, tmp: SingleLinkedList<T>)
    requires elem.Valid()
    ensures elem.Valid() && tmp.Valid() && fresh(tmp.Repr())
    ensures ok <==> TwoRoundsSucceed(copyOk, elem.Contents)
    ensures ok ==> tmp.Contents == elem.Contents
  {
    var tmpReverse;
    ok, tmpReverse := ReversedCopy(elem, copyOk, 0);
    if !ok {
      tmp := new SingleLinkedList<T>();
      return;
    }
    ok, tmp := ReversedCopy(tmpReverse, copyOk, elem.Size());
    ReverseReverse(elem.Contents);
  }

  /** The same two loops over an initializer list. */
  method TwiceReversedCopyOfValues<T(0)>(values: seq<T>, copyOk: (nat, T) -> bool) returns (ok: bool, tmp: SingleLinkedList<T>)
    ensures tmp.Valid() && fresh(tmp.Repr())
    ensures ok <==> TwoRoundsSucceed(copyOk, values)
    ensures ok ==> tmp.Contents == values
  {
    var tmpReverse;
    ok, tmpReverse := ReversedCopyOfValues(values, copyOk);
    if !ok {
      tmp := new SingleLinkedList<T>();
      return;
    }
    ok, tmp := ReversedCopy(tmpReverse, copyOk, |values|);
    ReverseReverse(values);
  }

  /** assign over another list: builds the copy in tmp by two reversals and
      swaps it in; a failing copy leaves the list as it was. */
  method Assign<T(0)>(list: SingleLinkedList<T>, elem: SingleLinkedList<T>, copyOk: (nat, T) -> bool) returns (ok: bool)
    requires list.Valid() && elem.Valid() && list.Repr() !! elem.Repr()
    modifies list, list.head
    ensures list.Valid() && elem.Valid() && elem.Contents == old(elem.Contents)
    ensures ok <==> TwoRoundsSucceed(copyOk, elem.Contents)
    ensures ok ==> list.Contents == elem.Contents && fresh(list.Repr() - {list, list.head})
    ensures !ok ==> list.Contents == old(list.Contents) && list.Nodes == old(list.Nodes)
  {
    var tmp;
    ok, tmp := TwiceReversedCopy(elem, copyOk);
    if ok {
      ghost var R := tmp.Repr() - {tmp, tmp.head};
      Swap(list, tmp);
      assert list.Repr() - {list, list.head} <= R;
      HoldsFrame(elem.head.next, elem.Nodes, elem.Contents);
    }
  }

  /** assign over an initializer list, with the same two rounds. */
  method AssignValues<T(0)>(list: SingleLinkedList<T>, values: seq<T>, copyOk: (nat, T) -> bool) returns (ok: bool)
    requires list.Valid()
    modifies list, list.head
    ensures list.Valid()
    ensures ok <==> TwoRoundsSucceed(copyOk, values)
    ensures ok ==> list.Contents == values && fresh(list.Repr() - {list, list.head})
    ensures !ok ==> list.Contents == old(list.Contents) && list.Nodes == old(list.Nodes)
  {
    var tmp;
    ok, tmp := TwiceReversedCopyOfValues(values, copyOk);
    if ok {
      ghost var R := tmp.Repr() - {tmp, tmp.head};
      Swap(list, tmp);
      assert list.Repr() - {list, list.head} <= R;
    }
  }

  /** The copy constructor: a fresh empty list assigned from other. */
  method CopyConstruct<T(0)>(other: SingleLinkedList<T>, copyOk: (nat, T) -> bool) returns (ok: bool, l: SingleLinkedList<T>)
    requires other.Valid()
    ensures l.Valid() && fresh(l.Repr()) && other.Valid()
    ensures ok <==> TwoRoundsSucceed(copyOk, other.Contents)
    ensures ok ==> l.Contents == other.Contents
  {
    l := new SingleLinkedList<T>();
    ok := Assign(l, other, copyOk);
  }

  /** operator=: a no-op on self-assignment; otherwise copies rhs into a
      temporary and swaps it in. A failing element copy leaves the list as it
      was. */
  method CopyAssign<T(0)>(list: SingleLinkedList<T>, rhs: SingleLinkedList<T>, copyOk: (nat, T) -> bool) returns (ok: bool)
    requires list.Valid() && rhs.Valid()
    requires list == rhs || list.Repr() !! rhs.Repr()
    modifies list, list.head
    ensures list.Valid() && rhs.Valid()
    ensures ok <==> list == rhs || TwoRoundsSucceed(copyOk, rhs.Contents)
    ensures ok && list != rhs ==> list.Contents == rhs.Contents && fresh(list.Repr() - {list, list.head})
    ensures !ok || list == rhs ==> list.Contents == old(list.Contents) && list.Nodes == old(list.Nodes)
  {
    if list != rhs {
      var temp;
      ok, temp := CopyConstruct(rhs, copyOk);
      if ok {
        ghost var R := temp.Repr() - {temp, temp.head};
        Swap(list, temp);
        assert list.Repr() - {list, list.head} <= R;
        HoldsFrame(rhs.head.next, rhs.Nodes, rhs.Contents);
      }
    } else {
      ok := true;
    }
  }

  /** operator== of this variant: std::equal over lhs's range only, so lhs
      compares equal to any list it is a prefix of. Reaching the end of rhs
      while lhs still has elements dereferences end; that case is excluded. */
  ghost function Equal(lhs: SingleLinkedList<int>, rhs: SingleLinkedList<int>): (r: bool)
    reads lhs, lhs.Repr(), rhs, rhs.Repr()
    requires lhs.Valid() && rhs.Valid() && EqualDefined(lhs.Contents, rhs.Contents)
    ensures r <==> |lhs.Contents| <= |rhs.Contents| && lhs.Contents == rhs.Contents[..|lhs.Contents|]
  {
    StdEqual(lhs.Contents, rhs.Contents)
  }

  /** operator!=: the negation of this variant's operator==. */
  ghost function NotEqual(lhs: SingleLinkedList<int>, rhs: SingleLinkedList<int>): (r: bool)
    reads lhs, lhs.Repr(), rhs, rhs.Repr()
    requires lhs.Valid() && rhs.Valid() && EqualDefined(lhs.Contents, rhs.Contents)
    ensures r <==> !(|lhs.Contents| <= |rhs.Contents| && lhs.Contents == rhs.Contents[..|lhs.Contents|])
  {
    !Equal(lhs, rhs)
  }

  /** operator<= of this variant: less, or equal in the sense above; == is
      only evaluated when < is false. */
  ghost function LessOrEqual(lhs: SingleLinkedList<int>, rhs: SingleLinkedList<int>): (r: bool)
    reads lhs, lhs.Repr(), rhs, rhs.Repr()
    requires lhs.Valid() && rhs.Valid()
    requires ListOperators.Less(lhs, rhs) || EqualDefined(lhs.Contents, rhs.Contents)
    ensures r <==> LexLess(lhs.Contents, rhs.Contents) || lhs.Contents == rhs.Contents
  {
    PrefixIsLessOrEqual(lhs.Contents, rhs.Contents);
    ListOperators.Less(lhs, rhs) || Equal(lhs, rhs)
  }

  /** A prefix is lexicographically less than or equal to the sequence it
      starts: what makes this variant's <= agree with the header's. */
  lemma PrefixIsLessOrEqual(a: seq<int>, b: seq<int>)
    ensures |a| <= |b| && a == b[..|a|] ==> LexLess(a, b) || a == b
  {
    if |a| < |b| && a == b[..|a|] {
      ProperPrefixIsLess(a, b);
      LexCompareIsLexLess(a, b);
    }
  }

  /** Wherever it is defined, this variant's <= agrees with the header's,
      although their == differ: a proper prefix is already less. */
  lemma LessOrEqualAgrees(lhs: SingleLinkedList<int>, rhs: SingleLinkedList<int>)
    requires lhs.Valid() && rhs.Valid()
    requires ListOperators.Less(lhs, rhs) || EqualDefined(lhs.Contents, rhs.Contents)
    ensures LessOrEqual(lhs, rhs) == ListOperators.LessOrEqual(lhs, rhs)
  {
  }

  /** This variant's == holds for lists with different elements: {1, 2} is
      a prefix of {1, 2, 3}. Compared the other way round, std::equal would
      dereference the end of {1, 2}. */
  lemma EqualAcceptsPrefix(lhs: SingleLinkedList<int>, rhs: SingleLinkedList<int>)
    requires lhs.Valid() && rhs.Valid()
    requires lhs.Contents == [1, 2] && rhs.Contents == [1, 2, 3]
    ensures Equal(lhs, rhs) && !ListOperators.ContentsEqual(lhs, rhs)
    ensures !EqualDefined(rhs.Contents, lhs.Contents)
  {
    assert rhs.Contents[..2] == lhs.Contents;
  }
}
