// The free comparison operators of custom_list.h, over lists of int. Each
// reads the lists' element sequences and delegates to the standard
// algorithms exactly as the header does; == is modelled as written, with its
// size shortcut, next to the element-wise equality it is evidently meant to be.

module ListOperators {
  import opened StdAlgorithms
  import opened ForwardList

  /** operator== as written: true for the same object, for lists of equal
      size whatever their elements, or when std::equal over lhs's range finds
      lhs's elements at the start of rhs. std::equal may only be reached when
      it stays within rhs. */
  ghost function Equal(lhs: SingleLinkedList<int>, rhs: SingleLinkedList<int>): (r: bool)
    reads lhs, lhs.Repr(), rhs, rhs.Repr()
    requires lhs.Valid() && rhs.Valid()
    requires lhs == rhs || lhs.Size() == rhs.Size() || EqualDefined(lhs.Contents, rhs.Contents)
    ensures r <==> (lhs == rhs || |lhs.Contents| == |rhs.Contents| ||
                    (|lhs.Contents| < |rhs.Contents| && lhs.Contents == rhs.Contents[..|lhs.Contents|]))
  {
    lhs == rhs || lhs.Size() == rhs.Size() || StdEqual(lhs.Contents, rhs.Contents)
  }

  /** The equality operator== is evidently meant to be: same elements in the
      same order. */
  ghost function ContentsEqual(lhs: SingleLinkedList<int>, rhs: SingleLinkedList<int>): (r: bool)
    reads lhs, lhs.Repr(), rhs, rhs.Repr()
    requires lhs.Valid() && rhs.Valid()
    ensures r <==> lhs.Contents == rhs.Contents
  {
    lhs == rhs || (lhs.Size() == rhs.Size() && ElementwiseEqual(lhs.Contents, rhs.Contents))
  }

  /** operator!=: the negation of operator== as written. */
  ghost function NotEqual(lhs: SingleLinkedList<int>, rhs: SingleLinkedList<int>): (r: bool)
    reads lhs, lhs.Repr(), rhs, rhs.Repr()
    requires lhs.Valid() && rhs.Valid()
    requires lhs == rhs || lhs.Size() == rhs.Size() || EqualDefined(lhs.Contents, rhs.Contents)
    ensures r <==> (lhs != rhs && |lhs.Contents| != |rhs.Contents| &&
                    !(|lhs.Contents| < |rhs.Contents| && lhs.Contents == rhs.Contents[..|lhs.Contents|]))
  {
    !Equal(lhs, rhs)
  }

  /** operator<: std::lexicographical_compare over both ranges. */
  ghost function Less(lhs: SingleLinkedList<int>, rhs: SingleLinkedList<int>): (r: bool)
    reads lhs, lhs.Repr(), rhs, rhs.Repr()
    requires lhs.Valid() && rhs.Valid()
    ensures r <==> LexLess(lhs.Contents, rhs.Contents)
  {
    LexCompareIsLexLess(lhs.Contents, rhs.Contents);
    LexCompare(lhs.Contents, rhs.Contents)
  }

  /** operator>: operator< with the operands exchanged. */
  ghost function Greater(lhs: SingleLinkedList<int>, rhs: SingleLinkedList<int>): (r: bool)
    reads lhs, lhs.Repr(), rhs, rhs.Repr()
    requires lhs.Valid() && rhs.Valid()
    ensures r <==> LexLess(rhs.Contents, lhs.Contents)
  {
    Less(rhs, lhs)
  }

  /** operator<=: not greater. Unlike operator== it is consistent with the
      elements: less, or element-wise equal. */
  ghost function LessOrEqual(lhs: SingleLinkedList<int>, rhs: SingleLinkedList<int>): (r: bool)
    reads lhs, lhs.Repr(), rhs, rhs.Repr()
    requires lhs.Valid() && rhs.Valid()
    ensures r <==> LexLess(lhs.Contents, rhs.Contents) || lhs.Contents == rhs.Contents
  {
    LexCompareIsLexLess(lhs.Contents, rhs.Contents);
    LexCompareIsLexLess(rhs.Contents, lhs.Contents);
    LexTrichotomy(lhs.Contents, rhs.Contents);
    !Greater(lhs, rhs)
  }

  /** operator>=: not less. */
  ghost function GreaterOrEqual(lhs: SingleLinkedList<int>, rhs: SingleLinkedList<int>): (r: bool)
    reads lhs, lhs.Repr(), rhs, rhs.Repr()
    requires lhs.Valid() && rhs.Valid()
    ensures r <==> LexLess(rhs.Contents, lhs.Contents) || lhs.Contents == rhs.Contents
  {
    LexCompareIsLexLess(lhs.Contents, rhs.Contents);
    LexCompareIsLexLess(rhs.Contents, lhs.Contents);
    LexTrichotomy(lhs.Contents, rhs.Contents);
    !Less(lhs, rhs)
  }

  /** Exactly one of lhs < rhs, equal elements, lhs > rhs holds. */
  lemma OrderTotal(lhs: SingleLinkedList<int>, rhs: SingleLinkedList<int>)
    requires lhs.Valid() && rhs.Valid()
    ensures Less(lhs, rhs) || ContentsEqual(lhs, rhs) || Greater(lhs, rhs)
    ensures !(Less(lhs, rhs) && Greater(lhs, rhs))
    ensures !(ContentsEqual(lhs, rhs) && (Less(lhs, rhs) || Greater(lhs, rhs)))
  {
    LexCompareIsLexLess(lhs.Contents, rhs.Contents);
    LexCompareIsLexLess(rhs.Contents, lhs.Contents);
    LexTrichotomy(lhs.Contents, rhs.Contents);
  }

  /** operator== as written never misses equal lists: element-wise equality
      implies it. */
  lemma ContentsEqualImpliesEqual(lhs: SingleLinkedList<int>, rhs: SingleLinkedList<int>)
    requires lhs.Valid() && rhs.Valid() && ContentsEqual(lhs, rhs)
    ensures lhs.Size() == rhs.Size() && Equal(lhs, rhs)
  {
  }

  /** ... but it also holds for lists with different elements: any two lists
      of the same size compare equal, so {1, 2} == {3, 4}. */
  lemma EqualIgnoresElements(lhs: SingleLinkedList<int>, rhs: SingleLinkedList<int>)
    requires lhs.Valid() && rhs.Valid()
    requires lhs.Contents == [1, 2] && rhs.Contents == [3, 4]
    ensures Equal(lhs, rhs) && !ContentsEqual(lhs, rhs)
    ensures Less(lhs, rhs) && !LessOrEqual(rhs, lhs)
  {
    assert lhs.Contents[..0] == rhs.Contents[..0];
  }
}
