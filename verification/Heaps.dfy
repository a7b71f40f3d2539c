/** The binary max-heap of terms ordered by exponent, as `std::make_heap`, `push_heap` and `pop_heap` keep it. */
module Heaps {
  import opened Groups

  function Parent(k: nat): (p: nat)
    requires k >= 1
    ensures p < k
  {
    (k - 1) / 2
  }

  ghost predicate Above<T>(s: seq<Term<T>>, k: nat)
    requires 1 <= k < |s|
  {
    s[Parent(k)].exponent >= s[k].exponent
  }

  /** The first n elements are in heap order. */
  ghost predicate IsHeap<T>(s: seq<Term<T>>, n: nat)
    requires n <= |s|
  {
    forall k :: 1 <= k < n ==> Above(s, k)
  }

  lemma {:induction false} RootIsMax<T>(s: seq<Term<T>>, n: nat, k: nat)
    requires k < n <= |s| && IsHeap(s, n)
    ensures s[0].exponent >= s[k].exponent
    decreases k
  {
    if k == 0 {
    } else {
      assert Above(s, k);
      RootIsMax(s, n, Parent(k));
    }
  }

  /** Heap order holds except perhaps between k and its parent. */
  ghost predicate HeapButUp<T>(s: seq<Term<T>>, n: nat, k: nat)
    requires k < n <= |s|
  {
    && (forall c :: 1 <= c < n && c != k ==> Above(s, c))
    && (k >= 1 ==> forall c :: 1 <= c < n && Parent(c) == k ==> s[Parent(k)].exponent >= s[c].exponent)
  }

  /** Heap order holds except perhaps between k and its children. */
  ghost predicate HeapButDown<T>(s: seq<Term<T>>, n: nat, k: nat)
    requires k < n <= |s|
  {
    && (forall c :: 1 <= c < n && Parent(c) != k ==> Above(s, c))
    && (k >= 1 ==> forall c :: 1 <= c < n && Parent(c) == k ==> s[Parent(k)].exponent >= s[c].exponent)
  }

  function Swapped<T>(s: seq<T>, i: nat, j: nat): (r: seq<T>)
    requires i < |s| && j < |s|
    ensures |r| == |s| && multiset(r) == multiset(s)
  {
    s[i := s[j]][j := s[i]]
  }

  lemma UpStep<T>(s: seq<Term<T>>, n: nat, k: nat)
    requires 1 <= k < n <= |s| && HeapButUp(s, n, k) && !Above(s, k)
    ensures HeapButUp(Swapped(s, k, Parent(k)), n, Parent(k))
  {
    var p := Parent(k);
    var r := Swapped(s, k, p);
    forall c | 1 <= c < n && c != p ensures Above(r, c) {
      if c != k { assert Above(s, c); }
    }
    if p >= 1 {
      assert Above(s, p);
      forall c | 1 <= c < n && Parent(c) == p ensures r[Parent(p)].exponent >= r[c].exponent {
        if c != k { assert Above(s, c); }
      }
    }
  }

  lemma UpStart<T>(s: seq<Term<T>>, n: nat)
    requires 1 <= n <= |s| && IsHeap(s, n - 1)
    ensures HeapButUp(s, n, n - 1)
  {}

  lemma UpDone<T>(s: seq<Term<T>>, n: nat, k: nat)
    requires k < n <= |s| && HeapButUp(s, n, k) && (k >= 1 ==> Above(s, k))
    ensures IsHeap(s, n)
  {}

  /** `std::push_heap`: the last of n elements joins the heap of the others. */
  method PushHeap<T>(a: array<Term<T>>, n: nat)
    requires 1 <= n <= a.Length && IsHeap(a[..], n - 1)
    modifies a
    ensures multiset(a[..]) == multiset(old(a[..])) && a[n..] == old(a[n..])
    ensures IsHeap(a[..], n)
  {
    hide HeapButUp, IsHeap;
    var k := n - 1;
    UpStart(a[..], n);
    while k >= 1 && a[(k - 1) / 2].exponent < a[k].exponent
      invariant 0 <= k < n && HeapButUp(a[..], n, k)
      invariant multiset(a[..]) == multiset(old(a[..])) && a[n..] == old(a[n..])
    {
      var p := (k - 1) / 2;
      UpStep(a[..], n, k);
      ghost var r := Swapped(a[..], k, p);
      a[k], a[p] := a[p], a[k];
      assert a[..] == r;
      k := p;
    }
    UpDone(a[..], n, k);
  }

  lemma DownStep<T>(s: seq<Term<T>>, n: nat, k: nat, c: nat)
    requires k < n <= |s| && HeapButDown(s, n, k) && LargestChild(s, n, k, c) && s[k].exponent < s[c].exponent
    ensures HeapButDown(Swapped(s, k, c), n, c)
  {
    var r := Swapped(s, k, c);
    forall d | 1 <= d < n && Parent(d) != c ensures Above(r, d) {
      if Parent(d) != k { assert Above(s, d); }
    }
    forall d | 1 <= d < n && Parent(d) == c ensures r[Parent(c)].exponent >= r[d].exponent {
      assert Above(s, d);
    }
  }

  ghost predicate AllAtMost<T>(s: seq<Term<T>>, m: nat) {
    forall i :: 0 <= i < |s| ==> s[i].exponent <= m
  }

  lemma PermutedAtMost<T>(s: seq<Term<T>>, t: seq<Term<T>>, m: nat)
    requires multiset(s) == multiset(t) && AllAtMost(s, m)
    ensures AllAtMost(t, m)
  {
    forall i | 0 <= i < |t| ensures t[i].exponent <= m {
      assert t[i] in multiset(s);
    }
  }

  lemma RootSwapped<T>(s: seq<Term<T>>)
    requires |s| >= 2 && IsHeap(s, |s|)
    ensures HeapButDown(Swapped(s, 0, |s| - 1), |s| - 1, 0)
  {
    var r := Swapped(s, 0, |s| - 1);
    forall c | 1 <= c < |s| - 1 && Parent(c) != 0 ensures Above(r, c) {
      assert Above(s, c);
    }
  }

  /** `std::pop_heap`: the largest element moves last, the others stay a heap. */
  method PopHeap<T>(a: array<Term<T>>)
    requires a.Length >= 2 && IsHeap(a[..], a.Length)
    modifies a
    ensures multiset(a[..]) == multiset(old(a[..]))
    ensures IsHeap(a[..], a.Length - 1) && AllAtMost(a[..], a[a.Length - 1].exponent)
  {
    hide HeapButDown, IsHeap;
    ghost var s, last := a[..], a.Length - 1;
    forall k | 0 <= k < |s| ensures s[k].exponent <= s[0].exponent {
      RootIsMax(s, |s|, k);
    }
    RootSwapped(s);
    a[0], a[a.Length - 1] := a[a.Length - 1], a[0];
    assert a[..] == Swapped(s, 0, last);
    SiftDown(a, a.Length - 1);
    assert a[last] == a[last..][0];
    PermutedAtMost(s, a[..], s[0].exponent);
  }

  /** c is a child of k, and no child of k is larger. */
  ghost predicate LargestChild<T>(s: seq<Term<T>>, n: nat, k: nat, c: nat)
    requires n <= |s|
  {
    && 1 <= c < n && Parent(c) == k
    && forall d :: 1 <= d < n && Parent(d) == k ==> s[c].exponent >= s[d].exponent
  }

  lemma LargerIsLargest<T>(s: seq<Term<T>>, n: nat, k: nat, c: nat)
    requires n <= |s| && c < n && 2 * k + 1 < n
    requires c == 2 * k + 1 || c == 2 * k + 2
    requires s[c].exponent >= s[2 * k + 1].exponent
    requires 2 * k + 2 < n ==> s[c].exponent >= s[2 * k + 2].exponent
    ensures LargestChild(s, n, k, c)
  {
    forall d | 1 <= d < n && Parent(d) == k ensures s[c].exponent >= s[d].exponent {
      assert d == 2 * k + 1 || d == 2 * k + 2;
    }
  }

  lemma DownDone<T>(s: seq<Term<T>>, n: nat, k: nat, c: nat)
    requires k < n <= |s| && HeapButDown(s, n, k) && LargestChild(s, n, k, c) && s[k].exponent >= s[c].exponent
    ensures IsHeap(s, n)
  {
    forall d | 1 <= d < n ensures Above(s, d) {
    }
  }

  lemma DownLeaf<T>(s: seq<Term<T>>, n: nat, k: nat)
    requires k < n <= |s| && HeapButDown(s, n, k) && 2 * k + 1 >= n
    ensures IsHeap(s, n)
  {
    forall d | 1 <= d < n ensures Above(s, d) {
      assert Parent(d) != k;
    }
  }

  /** Restores heap order among the first n elements from the root down. */
  method SiftDown<T>(a: array<Term<T>>, n: nat)
    requires 1 <= n <= a.Length && HeapButDown(a[..], n, 0)
    modifies a
    ensures multiset(a[..]) == multiset(old(a[..])) && a[n..] == old(a[n..])
    ensures IsHeap(a[..], n)
  {
    hide HeapButDown, IsHeap, Above, Parent, LargestChild;
    var k := 0;
    while 2 * k + 1 < n
      invariant 0 <= k < n && HeapButDown(a[..], n, k)
      invariant multiset(a[..]) == multiset(old(a[..])) && a[n..] == old(a[n..])
      decreases n - k
    {
      var c := 2 * k + 1;
      if c + 1 < n && a[c + 1].exponent > a[c].exponent {
        c := c + 1;
      }
      if a[k].exponent >= a[c].exponent {
        LargerIsLargest(a[..], n, k, c);
        DownDone(a[..], n, k, c);
        return;
      }
      LargerIsLargest(a[..], n, k, c);
      DownStep(a[..], n, k, c);
      ghost var r := Swapped(a[..], k, c);
      a[k], a[c] := a[c], a[k];
      assert a[..] == r;
      k := c;
    }
    DownLeaf(a[..], n, k);
  }

  /** `std::make_heap` */
  method MakeHeap<T>(a: array<Term<T>>)
    modifies a
    ensures multiset(a[..]) == multiset(old(a[..]))
    ensures IsHeap(a[..], a.Length)
  {
    for n := 1 to a.Length + 1
      invariant n - 1 <= a.Length ==> IsHeap(a[..], n - 1)
      invariant multiset(a[..]) == multiset(old(a[..]))
    {
      PushHeap(a, n);
    }
  }
}
