// The two standard algorithms the list's comparison operators delegate to,
// std::equal and std::lexicographical_compare, over the element sequences
// of the lists, instantiated with int elements and their usual total order.

module StdAlgorithms {

  /** std::equal(first1, last1, first2) dereferences the second range once per
      element of the first range, until the first mismatch. It is defined only
      when that never steps onto the end of the second range: either the first
      range is not longer, or a mismatch occurs within the second range. */
  predicate EqualDefined(a: seq<int>, b: seq<int>)
  {
    |a| <= |b| || a[..|b|] != b
  }

  /** std::equal with three iterators: compares a against the first |a|
      elements of b. */
  function StdEqual(a: seq<int>, b: seq<int>): (r: bool)
    requires EqualDefined(a, b)
    ensures r <==> |a| <= |b| && a == b[..|a|]
  {
    if |a| == 0 then true
    else
      assert |b| > 0;
      if a[0] != b[0] then false
      else
        assert EqualDefined(a[1..], b[1..]) by {
          if |a| > |b| {
            assert a[..|b|] == [a[0]] + a[1..][..|b| - 1];
            assert b == [b[0]] + b[1..];
          }
        }
        var rest := StdEqual(a[1..], b[1..]);
        assert |a| <= |b| && a == b[..|a|] ==> a[1..] == b[1..][..|a| - 1];
        assert |a| <= |b| && a[1..] == b[1..][..|a| - 1] ==> a == b[..|a|] by {
          if |a| <= |b| && a[1..] == b[1..][..|a| - 1] {
            assert a == [a[0]] + a[1..];
            assert b[..|a|] == [b[0]] + b[1..][..|a| - 1];
          }
        }
        rest
  }

  /** std::equal with four iterators: the comparison an element-wise list
      equality is meant to perform (same length, then StdEqual). */
  function ElementwiseEqual(a: seq<int>, b: seq<int>): (r: bool)
    ensures r <==> a == b
  {
    |a| == |b| && StdEqual(a, b)
  }

  /** std::lexicographical_compare: walks both ranges in step; the first
      differing pair decides, otherwise a is smaller exactly when it runs out
      first. */
  function LexCompare(a: seq<int>, b: seq<int>): (r: bool)
    ensures |a| == 0 ==> (r <==> |b| != 0)
    ensures |b| == 0 ==> !r
    ensures r ==> a != b
  {
    if |a| == 0 || |b| == 0 then |a| == 0 && |b| != 0
    else if a[0] < b[0] then true
    else if b[0] < a[0] then false
    else LexCompare(a[1..], b[1..])
  }

  /** Reference definition of the lexicographic order: a is a proper prefix of
      b, or at the first index k where they differ a's element is smaller. */
  ghost predicate LexLess(a: seq<int>, b: seq<int>)
  {
    exists k :: 0 <= k <= |a| && k < |b| && a[..k] == b[..k] && (k == |a| || (k < |a| && a[k] < b[k]))
  }

  lemma {:induction false} LexCompareIsLexLess(a: seq<int>, b: seq<int>)
    ensures LexCompare(a, b) <==> LexLess(a, b)
  {
    if |a| == 0 || |b| == 0 {
      if |a| == 0 && |b| != 0 {
        assert a[..0] == b[..0];
      }
    } else if a[0] < b[0] {
      assert a[..0] == b[..0];
    } else if b[0] < a[0] {
      if LexLess(a, b) {
        var k :| 0 <= k <= |a| && k < |b| && a[..k] == b[..k] && (k == |a| || (k < |a| && a[k] < b[k]));
        assert false;
      }
    } else {
      LexCompareIsLexLess(a[1..], b[1..]);
      if LexLess(a, b) {
        var k :| 0 <= k <= |a| && k < |b| && a[..k] == b[..k] && (k == |a| || (k < |a| && a[k] < b[k]));
        assert k > 0;
        assert a[1..][..k - 1] == a[..k][1..];
        assert b[1..][..k - 1] == b[..k][1..];
        assert LexLess(a[1..], b[1..]);
      }
      if LexLess(a[1..], b[1..]) {
        var k :| 0 <= k <= |a[1..]| && k < |b[1..]| && a[1..][..k] == b[1..][..k]
          && (k == |a[1..]| || (k < |a[1..]| && a[1..][k] < b[1..][k]));
        assert a[..k + 1] == [a[0]] + a[1..][..k];
        assert b[..k + 1] == [b[0]] + b[1..][..k];
        assert LexLess(a, b);
      }
    }
  }

  lemma {:induction false} LexAsymmetric(a: seq<int>, b: seq<int>)
    ensures LexCompare(a, b) ==> !LexCompare(b, a)
  {
    if |a| > 0 && |b| > 0 && a[0] == b[0] {
      LexAsymmetric(a[1..], b[1..]);
    }
  }

  lemma {:induction false} LexTransitive(a: seq<int>, b: seq<int>, c: seq<int>)
    requires LexCompare(a, b) && LexCompare(b, c)
    ensures LexCompare(a, c)
  {
    if |a| > 0 && a[0] == b[0] && b[0] == c[0] {
      LexTransitive(a[1..], b[1..], c[1..]);
    }
  }

  /** Exactly one of a < b, a == b, b < a holds: the order is total, and the
      derived operators can be read off from < and element-wise equality. */
  lemma {:induction false} LexTrichotomy(a: seq<int>, b: seq<int>)
    ensures LexCompare(a, b) || a == b || LexCompare(b, a)
    ensures !(LexCompare(a, b) && a == b) && !(LexCompare(b, a) && a == b)
    ensures !(LexCompare(a, b) && LexCompare(b, a))
  {
    LexAsymmetric(a, b);
    if |a| > 0 && |b| > 0 && a[0] == b[0] {
      LexTrichotomy(a[1..], b[1..]);
      if a[1..] == b[1..] {
        assert a == [a[0]] + a[1..] && b == [b[0]] + b[1..];
      }
    }
  }

  /** A proper prefix is smaller; this is what makes {1, 2, 3} < {1, 2, 3, 1}. */
  lemma {:induction false} ProperPrefixIsLess(a: seq<int>, b: seq<int>)
    requires |a| < |b| && a == b[..|a|]
    ensures LexCompare(a, b)
  {
    if |a| > 0 {
      assert a[1..] == b[1..][..|a| - 1];
      ProperPrefixIsLess(a[1..], b[1..]);
    }
  }
}
