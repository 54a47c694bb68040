/** What `merge` and `node_merge_sort` of list.c compute, on sequences.  The comparison follows the C convention: the
    first argument comes first when the result is at most 0. */
module MergeSort {

  /** `merge` exchanges its arguments whenever it takes from the right. */
  function Merge<A>(left: seq<A>, right: seq<A>, cmp: (A, A) -> int): (m: seq<A>)
    ensures |m| == |left| + |right|
    decreases |left| + |right|
  {
    if left == [] then right
    else if right == [] then left
    else if cmp(left[0], right[0]) <= 0 then [left[0]] + Merge(left[1..], right, cmp)
    else [right[0]] + Merge(right[1..], left, cmp)
  }

  function Sort<A>(s: seq<A>, cmp: (A, A) -> int): (r: seq<A>)
    ensures |r| == |s|
    decreases |s|
  {
    if |s| <= 1 then s
    else Merge(Sort(s[..|s| / 2], cmp), Sort(s[|s| / 2..], cmp), cmp)
  }

  lemma SortUnfold<A>(s: seq<A>, cmp: (A, A) -> int)
    requires |s| > 1
    ensures var h := |s| / 2; Sort(s, cmp) == Merge(Sort(s[..h], cmp), Sort(s[h..], cmp), cmp)
  {
  }

  ghost predicate Sorted<A>(s: seq<A>, cmp: (A, A) -> int) {
    forall i, j :: 0 <= i < j < |s| ==> cmp(s[i], s[j]) <= 0
  }

  /** The comparison need only order the elements that are there. */
  ghost predicate TotalPreorderOn<A>(s: seq<A>, cmp: (A, A) -> int) {
    && (forall a, b :: a in s && b in s ==> cmp(a, b) <= 0 || cmp(b, a) <= 0)
    && (forall a, b, c :: a in s && b in s && c in s && cmp(a, b) <= 0 && cmp(b, c) <= 0 ==> cmp(a, c) <= 0)
  }

  /** Nothing is lost or duplicated, whatever the comparison answers. */
  lemma {:induction false} MergePermutes<A>(left: seq<A>, right: seq<A>, cmp: (A, A) -> int)
    ensures multiset(Merge(left, right, cmp)) == multiset(left) + multiset(right)
    decreases |left| + |right|
  {
    if left != [] && right != [] {
      assert left == [left[0]] + left[1..] && right == [right[0]] + right[1..];
      MergePermutes(left[1..], right, cmp);
      MergePermutes(right[1..], left, cmp);
    }
  }

  lemma HalvesAddUp<A>(s: seq<A>, h: nat)
    requires h <= |s|
    ensures multiset(s) == multiset(s[..h]) + multiset(s[h..])
  {
    assert s == s[..h] + s[h..];
  }

  lemma {:induction false} SortPermutes<A>(s: seq<A>, cmp: (A, A) -> int)
    ensures multiset(Sort(s, cmp)) == multiset(s)
    decreases |s|
  {
    if |s| > 1 {
      var h := |s| / 2;
      SortUnfold(s, cmp);
      hide *;
      HalvesAddUp(s, h);
      SortPermutes(s[..h], cmp);
      SortPermutes(s[h..], cmp);
      MergePermutes(Sort(s[..h], cmp), Sort(s[h..], cmp), cmp);
    }
  }

  /** The preorder property depends only on which elements there are. */
  lemma PreorderOnSome<A>(s: seq<A>, t: seq<A>, cmp: (A, A) -> int)
    requires TotalPreorderOn(s, cmp) && multiset(t) <= multiset(s)
    ensures TotalPreorderOn(t, cmp)
  {
    forall a | a in t ensures a in s {
      assert a in multiset(t);
    }
  }

  /** An element that comes before everything on both sides may be put in front of the merge. */
  lemma SortedCons<A>(x: A, m: seq<A>, left: seq<A>, right: seq<A>, cmp: (A, A) -> int)
    requires Sorted(m, cmp) && multiset(m) == multiset(left) + multiset(right)
    requires forall i :: 0 <= i < |left| ==> cmp(x, left[i]) <= 0
    requires forall i :: 0 <= i < |right| ==> cmp(x, right[i]) <= 0
    ensures Sorted([x] + m, cmp)
  {
    forall j | 0 <= j < |m| ensures cmp(x, m[j]) <= 0 {
      assert m[j] in multiset(m);
      assert m[j] in left || m[j] in right;
    }
  }

  lemma {:induction false} MergeSorted<A>(left: seq<A>, right: seq<A>, cmp: (A, A) -> int)
    requires TotalPreorderOn(left + right, cmp) && Sorted(left, cmp) && Sorted(right, cmp)
    ensures Sorted(Merge(left, right, cmp), cmp)
    decreases |left| + |right|
  {
    if left != [] && right != [] {
      var all := left + right;
      if cmp(left[0], right[0]) <= 0 {
        MergeSortedStep(left, right, cmp);
        MergeSorted(left[1..], right, cmp);
        MergePermutes(left[1..], right, cmp);
        SortedCons(left[0], Merge(left[1..], right, cmp), left[1..], right, cmp);
      } else {
        SwapPreorder(left, right, cmp);
        MergeSortedStep(right, left, cmp);
        MergeSorted(right[1..], left, cmp);
        MergePermutes(right[1..], left, cmp);
        SortedCons(right[0], Merge(right[1..], left, cmp), right[1..], left, cmp);
      }
    }
  }

  lemma SwapPreorder<A>(left: seq<A>, right: seq<A>, cmp: (A, A) -> int)
    requires TotalPreorderOn(left + right, cmp) && left != [] && right != [] && cmp(left[0], right[0]) > 0
    ensures TotalPreorderOn(right + left, cmp) && cmp(right[0], left[0]) <= 0
  {
    PreorderOnSome(left + right, right + left, cmp);
    assert (left + right)[0] == left[0] && (left + right)[|left|] == right[0];
  }

  /** The smaller of the two front elements comes before the rest. */
  lemma MergeSortedStep<A>(left: seq<A>, right: seq<A>, cmp: (A, A) -> int)
    requires TotalPreorderOn(left + right, cmp) && Sorted(left, cmp) && Sorted(right, cmp)
    requires left != [] && right != [] && cmp(left[0], right[0]) <= 0
    ensures forall i :: 0 <= i < |left[1..]| ==> cmp(left[0], left[1..][i]) <= 0
    ensures forall i :: 0 <= i < |right| ==> cmp(left[0], right[i]) <= 0
    ensures TotalPreorderOn(left[1..] + right, cmp) && Sorted(left[1..], cmp)
  {
    forall i | 0 <= i < |right| ensures cmp(left[0], right[i]) <= 0 {
      if i > 0 {
        Transitive(left + right, left[0], right[0], right[i], cmp);
      }
    }
    hide TotalPreorderOn;
    FewerElements(left, right);
    PreorderOnSome(left + right, left[1..] + right, cmp);
  }

  lemma FewerElements<A>(left: seq<A>, right: seq<A>)
    requires left != []
    ensures multiset(left[1..] + right) <= multiset(left + right)
  {
    assert left == [left[0]] + left[1..];
  }

  lemma Transitive<A>(s: seq<A>, a: A, b: A, c: A, cmp: (A, A) -> int)
    requires TotalPreorderOn(s, cmp) && a in s && b in s && c in s && cmp(a, b) <= 0 && cmp(b, c) <= 0
    ensures cmp(a, c) <= 0
  {
  }

  lemma {:induction false} SortSorted<A>(s: seq<A>, cmp: (A, A) -> int)
    requires TotalPreorderOn(s, cmp)
    ensures Sorted(Sort(s, cmp), cmp)
    decreases |s|
  {
    if |s| > 1 {
      var left, right := s[..|s| / 2], s[|s| / 2..];
      assert s == left + right;
      PreorderOnSome(s, left, cmp);
      PreorderOnSome(s, right, cmp);
      SortSorted(left, cmp);
      SortSorted(right, cmp);
      SortPermutes(left, cmp);
      SortPermutes(right, cmp);
      PreorderOnSome(s, Sort(left, cmp) + Sort(right, cmp), cmp);
      MergeSorted(Sort(left, cmp), Sort(right, cmp), cmp);
    }
  }

  /** The exchange of the arguments costs stability: of two elements that compare equal the second can come first. */
  lemma SortIsNotStable()
    ensures var cmp := (a: (int, bool), b: (int, bool)) => a.0 - b.0;
      Sort([(2, false), (1, false), (2, true)], cmp) == [(1, false), (2, true), (2, false)]
  {
    var cmp := (a: (int, bool), b: (int, bool)) => a.0 - b.0;
    var s := [(2, false), (1, false), (2, true)];
    assert s[..1] == [(2, false)] && s[1..] == [(1, false), (2, true)];
    assert s[1..][..1] == [(1, false)] && s[1..][1..] == [(2, true)];
    assert Sort(s[1..], cmp) == Merge([(1, false)], [(2, true)], cmp) == [(1, false)] + Merge([], [(2, true)], cmp);
    assert Sort(s, cmp) == Merge([(2, false)], [(1, false), (2, true)], cmp)
        == [(1, false)] + Merge([(2, true)], [(2, false)], cmp);
    assert Merge([(2, true)], [(2, false)], cmp) == [(2, true)] + Merge([], [(2, false)], cmp);
  }
}
