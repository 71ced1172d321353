# SingleLinkedList: a verified model of a singly linked forward list

`SingleLinkedList<Type>` is a singly linked forward list in the style of
`std::forward_list`. The list object embeds a sentinel node, `head_`, whose
`next_node` is the first element node, and caches the element count in
`size_`. Iterators are raw node pointers:

- the sentinel is the before-begin position;
- an element node is an element position;
- the null pointer is end.

The model covers both versions in the repository. `custom_list.h` comes
first; `CustomForwardList.cpp` is modelled where it differs from it.

- **`std_algorithms.dfy`** (module `StdAlgorithms`). The two standard
  algorithms that the comparison operators call, over `int` elements:
  - `std::equal` with three iterators, plus the precondition that keeps it
    inside the second range;
  - `std::lexicographical_compare`, with a reference definition of
    lexicographic order (`LexLess`) and its order laws.
- **`forward_list.dfy`** (module `ForwardList`). The list of `custom_list.h`
  as a `class` over heap `Node`s.
  - Its ghost `Contents` and `Nodes` sequences give the abstract view. The
    object invariant `Valid()` says:
    - the chain from the sentinel visits exactly `Nodes`, without
      repetition;
    - the chain ends in null;
    - the nodes hold `Contents`;
    - the cached count equals `|Contents|`.
  - Every mutator is a `method` that rewrites `next` links and the count in
    place. Its `ensures` gives the new `Contents` and `Nodes` in terms of the
    old ones and says which nodes are fresh or gone.
  - `assign` is the loop that builds a fresh temporary, followed by the
    `swap` that commits it.
- **`list_operators.dfy`** (module `ListOperators`). The free `==`, `!=`,
  `<`, `<=`, `>` and `>=` of `custom_list.h`, on `SingleLinkedList<int>`.
  `==` is modelled exactly as written. Next to it is the element-wise
  equality it is evidently meant to be.
- **`forward_list_variant.dfy`** (module `ForwardListVariant`). The members
  of `CustomForwardList.cpp` that differ from the header, as methods and
  functions over the same class:
  - `assign` by two rounds of `push_front`, with `Reverse` as its
    specification;
  - `swap` through two local temporaries;
  - `operator=` without the header's separate clear of an empty right-hand
    side;
  - `==` as `std::equal` over the left range only;
  - `<=` as `< || ==`.

  Its `insert`, `erase`, `pop_front`, `push_front`, `clear`, `empty`,
  iterator increment and dereference, free `swap`, `<`, `>` and `>=` have
  the same behaviour as the header's, though not always the same code:
  `empty` is an if/else, and `erase` and `pop_front` call `IsEmpty`. So the
  `ForwardList` and `ListOperators` members model both files: `insert`
  (CustomForwardList.cpp:185-192), `erase` (194-205), `empty` (224-231),
  `push_front` (233-237), `clear` (239-248), `pop_front` (250-258), prefix
  `++` (66-72), `*` (84-89), free `swap` (283-287), `<` (301-305), `>`
  (313-317) and `>=` (319-323).

Conventions:

- **Element copies can throw.** A copy that can fail is modelled by a
  parameter `copyOk: (nat, T) -> bool`. `copyOk(k, x)` says whether the
  k-th element copy of the operation, of value `x`, succeeds. Copies are
  numbered from 0 in the order the loops make them. A copy that allocates
  or counts down can therefore fail on a later copy of a value whose
  earlier copy succeeded. `CopiesSucceed(copyOk, start, s)` says that the
  copies numbered `start`, `start + 1`, … of the elements of `s` all
  succeed.
  - In the header's `assign`, element i is copy i.
  - The variant's `assign` makes 2n copies of n elements: the first loop's
    copies 0 … n - 1 in the source order, then the second loop's copies
    n … 2n - 1 in reversed order (`TwoRoundsSucceed`).
  - A failing copy abandons the temporary lists. The method returns
    `ok == false`, and the receiver keeps its old `Contents` and `Nodes`:
    the strong guarantee of copy-and-swap.
- **Constructors cannot fail in Dafny.** They pass `(_, _) => true`.
- **Preconditions** are the source's `assert`s, plus what it dereferences
  without checking, plus ownership. Each `requires` is one of these:
  - the object invariant `Valid()` of every list involved;
  - `pos` is not end;
  - `pos` is a position of this list (the sentinel or one of its nodes);
  - the list is not empty;
  - the position after `pos` exists, for `erase`;
  - two lists are the same object or own disjoint objects, for `swap`,
    `operator=` and `assign` from another list;
  - `std::equal` does not run off the second range.

Points where the model reads the code closely:

- The header's `<=` is `!(rhs < lhs)`, so it agrees with element-wise order.
  Its `==` does not.
- `CustomForwardList.cpp` calls the undeclared `IsEmpty` and `PushFront`.
  They are read as `empty()` and `push_front`.
- The `.cpp` `operator=` has no separate empty case.
- Dereferencing before-begin is allowed by the source's `assert`. It yields
  the sentinel's element. In the header it is value-initialised
  (`Type value{}`). In `CustomForwardList.cpp` the default constructor
  value-initialises the sentinel too (`head_()`), but the initializer-list
  and copy constructors leave its element default-initialised. The model gives
  the sentinel an arbitrary value, so `Get` promises nothing about it.

## Model

| member | source | states |
|---|---|---|
| ForwardList.Node.constructor | custom_list.h:16 | a new node holds the given value and links to the given next node |
| ForwardList.SingleLinkedList.constructor | custom_list.h:101 | a new list is valid and empty, and owns only fresh objects |
| ForwardList.SingleLinkedList.FromValues | custom_list.h:103-106 | construction from an initializer list holds exactly those values, in order, in fresh nodes |
| ForwardList.SingleLinkedList.Copy | custom_list.h:108-113 | copy construction holds the other list's elements in fresh nodes of its own and leaves the other list valid |
| ForwardList.SingleLinkedList.Size | custom_list.h:213-216 | the cached count equals the number of elements reachable from the sentinel |
| ForwardList.SingleLinkedList.Empty | custom_list.h:218-221 | empty() holds exactly when there are no elements (the count is 0) |
| ForwardList.SingleLinkedList.Begin | custom_list.h:126-129 | begin is the first node, or end (null) for an empty list |
| ForwardList.SingleLinkedList.End | custom_list.h:131-134 | end is no node of the list; it follows the last node and equals begin on an empty list |
| ForwardList.SingleLinkedList.BeforeBegin | custom_list.h:156-159 | before-begin is the sentinel, the place in front of index 0, and its successor is begin |
| ForwardList.SingleLinkedList.SamePosition | custom_list.h:45-63 | two iterators compare equal exactly when they denote the same place in the list |
| ForwardList.SingleLinkedList.Next | custom_list.h:65-71 | ++ moves from the node at index i to the node at i + 1, from before-begin to begin, and from the last node to end |
| ForwardList.SingleLinkedList.Get | custom_list.h:82-87 | * at the node at index i yields the i-th element |
| ForwardList.SingleLinkedList.PushFront | custom_list.h:223-227 | the value becomes the first element in a fresh node, the old nodes and elements follow unchanged, the count grows by 1 |
| ForwardList.SingleLinkedList.PopFront | custom_list.h:240-248 | on a non-empty list, leaves exactly the old tail (elements and nodes), with the count decreased by 1; the removed node leaves the footprint |
| ForwardList.SingleLinkedList.Insert | custom_list.h:171-178 | for a position that is not end, a fresh node with the value is spliced in right after it (index 0 after before-begin, i + 1 after the node at i), every other node keeps its place, and the returned iterator is the new node |
| ForwardList.SingleLinkedList.Erase | custom_list.h:180-191 | on a non-empty list and a position with a successor, removes exactly that successor, keeps every other node in place, returns the new successor or end, and the removed node leaves the footprint |
| ForwardList.EraseUndoesInsert | custom_list.h:171-191 | removing index k from a sequence with an element inserted at k restores the sequence |
| ForwardList.InsertThenErase | custom_list.h:171-191 | insert at a position followed by erase at the same position leaves the list with its old elements in its old nodes |
| ForwardList.SingleLinkedList.Clear | custom_list.h:229-238 | from any valid state, the sentinel ends up with no successor and the list is empty with count 0 |
| ForwardList.SingleLinkedList.Swap | custom_list.h:207-211 | the two lists exchange their elements and their nodes; no node is created, and old positions follow their elements |
| ForwardList.Swap | custom_list.h:274-278 | the free swap exchanges the two lists' elements and nodes |
| ForwardList.SwapTwice | test.h:271-302 | the member swap followed by the free swap gives each list back its elements and its nodes, so its begin and size |
| ForwardList.SingleLinkedList.Append | custom_list.h:263-267 | one step of assign: a fresh node with the value is linked after the last node, and the cursor moves onto it |
| ForwardList.SingleLinkedList.AppendNext | custom_list.h:261-268 | a list holding the first i values, extended by the value at index i, holds the first i + 1 |
| ForwardList.SingleLinkedList.CopyOfValues | custom_list.h:256-268 | assign's loop over an initializer list: copy i is of the value at index i; if every copy succeeds, the fresh temporary holds the values in order, and it reports failure exactly when some copy fails |
| ForwardList.SingleLinkedList.CopyOf | custom_list.h:256-268 | assign's loop over another list: copy i is of the element at index i; if every copy succeeds, the fresh temporary holds that list's elements in order, and it reports failure exactly when some copy fails |
| ForwardList.SingleLinkedList.AssignRange | custom_list.h:256-270 | on success the list holds the values in fresh nodes; a failing copy leaves its elements and nodes as they were |
| ForwardList.SingleLinkedList.AssignList | custom_list.h:256-270 | on success the list holds the other list's elements in fresh nodes, disjoint from the other list; a failing copy leaves it unchanged |
| ForwardList.SingleLinkedList.CopyAssign | custom_list.h:193-205 | self-assignment is a no-op; otherwise the list becomes value-equal to rhs over fresh nodes, or stays unchanged if an element copy fails |
| StdAlgorithms.StdEqual | custom_list.h:283 | std::equal over lhs's range is true exactly when lhs is a prefix of rhs |
| StdAlgorithms.ElementwiseEqual | custom_list.h:280-288 | the intended equality: true exactly when both element sequences are equal |
| StdAlgorithms.LexCompare | custom_list.h:299 | std::lexicographical_compare: an empty range is less exactly than a non-empty one, nothing is less than an empty range, and a range that is less differs from the other |
| StdAlgorithms.LexCompareIsLexLess | custom_list.h:296-300 | std::lexicographical_compare agrees with the reference lexicographic order |
| StdAlgorithms.LexAsymmetric | custom_list.h:296-300 | a < b and b < a never both hold |
| StdAlgorithms.LexTransitive | custom_list.h:296-300 | < is transitive |
| StdAlgorithms.LexTrichotomy | custom_list.h:296-318 | exactly one of a < b, a == b, b < a holds |
| StdAlgorithms.ProperPrefixIsLess | custom_list.h:296-300 | a proper prefix is less |
| ListOperators.Equal | custom_list.h:280-288 | == as written: true for the same object, for any two lists of equal size, or when lhs is a proper prefix of rhs |
| ListOperators.ContentsEqual | custom_list.h:280-288 | the corrected ==: true exactly when the element sequences are equal |
| ListOperators.NotEqual | custom_list.h:290-294 | != is the negation of == as written |
| ListOperators.Less | custom_list.h:296-300 | < is lexicographic order on the elements |
| ListOperators.LessOrEqual | custom_list.h:302-306 | <= (not greater) is: lexicographically less, or element-wise equal |
| ListOperators.Greater | custom_list.h:308-312 | > is < with the operands exchanged |
| ListOperators.GreaterOrEqual | custom_list.h:314-318 | >= (not less) is: greater, or element-wise equal |
| ListOperators.OrderTotal | custom_list.h:296-318 | exactly one of <, element-wise equal, > holds for any two lists |
| ListOperators.ContentsEqualImpliesEqual | custom_list.h:280-288 | == as written holds for every pair of element-wise equal lists |
| ListOperators.EqualIgnoresElements | custom_list.h:283 | == as written holds for {1, 2} and {3, 4}, although these differ and {1, 2} < {3, 4} |
| ForwardListVariant.Reverse | CustomForwardList.cpp:264-280 | the reversal has the input's length |
| ForwardListVariant.ReverseAt | CustomForwardList.cpp:264-280 | the element at index i of the reversal is the one at index \|s\| - 1 - i |
| ForwardListVariant.ReverseSnoc | CustomForwardList.cpp:270-273 | push_front of x onto the reversal of s is the reversal of s + [x] |
| ForwardListVariant.ReversePrefix | CustomForwardList.cpp:270-273 | one round of push_front extends the reversed prefix by one element |
| ForwardListVariant.ReverseReverse | CustomForwardList.cpp:264-280 | reversing twice restores the original order |
| ForwardListVariant.TwoRoundsCopyEachTwice | CustomForwardList.cpp:270-277 | the two loops copy the element at index j twice, as copy j and as copy 2n - 1 - j, and succeed exactly when all those copies do |
| ForwardListVariant.SecondRoundCanFail | CustomForwardList.cpp:274-277 | with one element and only the first copy succeeding, the first loop completes and the second fails |
| ForwardListVariant.PushFrontNext | CustomForwardList.cpp:270-273 | a push_front of the next element keeps the temporary holding the reversal of the elements seen so far |
| ForwardListVariant.ReversedCopy | CustomForwardList.cpp:270-273 | pushing each element of a list to the front of a fresh list, as copies start, start + 1, …, leaves it holding their reversal, and it fails exactly when one of those copies fails |
| ForwardListVariant.ReversedCopyOfValues | CustomForwardList.cpp:270-273 | the same loop over an initializer list |
| ForwardListVariant.TwiceReversedCopy | CustomForwardList.cpp:265-278 | the two loops succeed exactly when all 2n copies of both rounds do, and then leave tmp holding the source's elements in their original order, in fresh nodes |
| ForwardListVariant.TwiceReversedCopyOfValues | CustomForwardList.cpp:265-278 | the same for an initializer list |
| ForwardListVariant.Assign | CustomForwardList.cpp:264-280 | assign(list) succeeds exactly when all copies of both rounds do; it then makes the receiver hold that list's elements in fresh nodes, and otherwise leaves it unchanged |
| ForwardListVariant.AssignValues | CustomForwardList.cpp:158-161 | construction from an initializer list (assign over it) succeeds exactly when all copies of both rounds do, and then holds the values in order in fresh nodes; otherwise the list is unchanged |
| ForwardListVariant.Swap | CustomForwardList.cpp:207-217 | swap through temporaries exchanges the two lists' elements and nodes and touches no node |
| ForwardListVariant.CopyConstruct | CustomForwardList.cpp:163-168 | copy construction succeeds exactly when all copies of both rounds do, and then yields a fresh list holding the other list's elements |
| ForwardListVariant.CopyAssign | CustomForwardList.cpp:175-183 | self-assignment is a no-op; otherwise the receiver becomes value-equal to rhs over fresh nodes when all copies of both rounds succeed, and stays unchanged otherwise |
| ForwardListVariant.Equal | CustomForwardList.cpp:289-293 | == as written is true exactly when lhs is a prefix of rhs |
| ForwardListVariant.NotEqual | CustomForwardList.cpp:295-299 | != is the negation of that == |
| ForwardListVariant.LessOrEqual | CustomForwardList.cpp:307-311 | < \|\| == is: lexicographically less, or element-wise equal |
| ForwardListVariant.PrefixIsLessOrEqual | CustomForwardList.cpp:307-311 | a prefix is lexicographically less than or equal to the sequence it starts |
| ForwardListVariant.LessOrEqualAgrees | CustomForwardList.cpp:307-311 | wherever it is defined, the variant's <= agrees with the header's |
| ForwardListVariant.EqualAcceptsPrefix | CustomForwardList.cpp:292 | == holds for {1, 2} and {1, 2, 3}, and the reverse comparison would run past the end of {1, 2} |

## Left out

- Destructors and `delete`. Dafny is garbage collected. Instead, nodes that `pop_front` or `erase` remove are shown to leave the list's footprint, `Repr()`.
- C++ exceptions. An element copy that throws is modelled as `copyOk` returning false. `push_front` and `insert` allocate a single node before changing anything, so a failure there leaves the list as it was, and it is not modelled.
- The const/non-const iterator split, iterator traits, `operator->`, postfix `operator++` and assignment through `operator*` (`*list.begin() = -1`), in both files. `Get` only reads. The postfix form in `CustomForwardList.cpp` returns a reference to a local. One `Node?` position type serves for all iterators.
- `size_t` is an unbounded `nat`. The count cannot overflow before memory runs out.
- The element type is generic for the list. It is `int` for the comparison operators, which need equality and a total order.
- In `CustomForwardList.cpp`:
  - the non-default constructors leave `size_` uninitialised, and the copy constructor asserts on it. The model starts both from an empty list.
  - `main` is empty.
- `std::string` elements and the instrumentation types of the tests, which count constructions and destructions.
- ForwardList.SingleLinkedList.Swap: requires the two lists to be the same object or to own disjoint objects. This is the ownership invariant of a list that never shares nodes; the source cannot violate it.
- ForwardList.SingleLinkedList.AssignList: requires the receiver to be disjoint from the other list. It is called only from the copy constructor, whose receiver is new.
- ForwardListVariant.Assign: requires the same disjointness, for the same reason.
- ForwardList.SingleLinkedList.CopyAssign: does not state that the lists' old nodes are freed on success, only that the receiver's nodes are fresh.
- ForwardListVariant.Reverse: its own contract states only the length. The position of each element is stated by ReverseAt.
- ForwardList.SingleLinkedList.Get: states nothing about dereferencing before-begin. The sentinel's value is left arbitrary, because Dafny has no value-initialisation `T{}` for a generic `T`.
- Copy outcomes depend only on the copy's number and value, given up front. An allocator or copy constructor whose behaviour depends on other state is modelled only through that numbering.

## Findings

| source | as written | input that shows it | evidently intended | confidence | as-written member | corrected member |
|---|---|---|---|---|---|---|
| custom_list.h:283 | `==` returns true as soon as the two sizes are equal, without comparing elements; for lists of different sizes it is `std::equal` over lhs's range only | lists {1, 2} and {3, 4}: `==` holds, yet {1, 2} < {3, 4} and `<=` in the other direction is false. Lists {1, 2} and {1, 2, 3}: `==` holds too, and with the operands exchanged `std::equal` dereferences the end of {1, 2} (the `assert` of `operator*` at custom_list.h:84) | equal exactly when the element sequences are equal (same size and `std::equal`) | high; not executed | ListOperators.EqualIgnoresElements | ListOperators.ContentsEqual |
| CustomForwardList.cpp:292 | `==` is `std::equal` over the left range only | lists {1, 2} and {1, 2, 3}: `==` holds; with the operands exchanged, `std::equal` dereferences the end of {1, 2} | equal exactly when the element sequences are equal (four-iterator `std::equal`) | high; not executed | ForwardListVariant.EqualAcceptsPrefix | StdAlgorithms.ElementwiseEqual |
