/** The ICU queue as a binary min-heap of alerts, in the manner of Python's
    `heapq`: a list in which every element is no smaller than its parent, so
    the root is the least pending alert. `HeapPush` appends and sifts the new
    alert up; `HeapPop` takes the root, moves the last element to the root and
    sifts it down. This is a textbook binary heap over the alert order; it is
    proved against the multiset of pending alerts, not against the exact list
    layout `heapq` produces. */
module BinaryHeap {
  import opened AlertOrder

  function Parent(i: nat): nat
    requires 0 < i
  {
    (i - 1) / 2
  }

  /** The heap order: every element is no smaller than its parent. */
  ghost predicate IsHeap(h: seq<Alert>)
  {
    forall i :: 0 < i < |h| ==> AlertLe(h[Parent(i)], h[i])
  }

  /** Heap order everywhere except between `k` and its parent, and the parent
      of `k` is no greater than the children of `k` (the state of a sift-up). */
  ghost predicate HeapExceptUp(h: seq<Alert>, k: nat)
  {
    && k < |h|
    && (forall i :: 0 < i < |h| && i != k ==> AlertLe(h[Parent(i)], h[i]))
    && (0 < k ==> forall c :: 0 < c < |h| && Parent(c) == k ==> AlertLe(h[Parent(k)], h[c]))
  }

  /** Heap order everywhere except between `k` and its children, and the parent
      of `k` is no greater than the children of `k` (the state of a sift-down). */
  ghost predicate HeapExceptDown(h: seq<Alert>, k: nat)
  {
    && k < |h|
    && (forall i :: 0 < i < |h| && Parent(i) != k ==> AlertLe(h[Parent(i)], h[i]))
    && (0 < k ==> forall c :: 0 < c < |h| && Parent(c) == k ==> AlertLe(h[Parent(k)], h[c]))
  }

  /** Exchange the elements at `i` and `j`. */
  function Swap(h: seq<Alert>, i: nat, j: nat): (r: seq<Alert>)
    requires i < |h| && j < |h|
    ensures |r| == |h| && r[i] == h[j] && r[j] == h[i]
    ensures forall n :: 0 <= n < |h| && n != i && n != j ==> r[n] == h[n]
    ensures multiset(r) == multiset(h)
  {
    h[i := h[j]][j := h[i]]
  }

  /** Every element of a heap is no smaller than the root. */
  lemma {:induction false} RootLeAll(h: seq<Alert>, i: nat)
    requires IsHeap(h) && i < |h|
    ensures AlertLe(h[0], h[i])
    decreases i
  {
    if i == 0 {
      AlertLeRefl(h[0]);
    } else {
      RootLeAll(h, Parent(i));
      AlertLeTrans(h[0], h[Parent(i)], h[i]);
    }
  }

  /** The root of a non-empty heap is the least pending alert. */
  lemma RootIsMinimum(h: seq<Alert>)
    requires IsHeap(h) && h != []
    ensures IsMinimum(h[0], multiset(h))
  {
    forall y | y in multiset(h) ensures AlertLe(h[0], y) {
      var i :| 0 <= i < |h| && h[i] == y;
      RootLeAll(h, i);
    }
  }

  /** One exchange of a sift-up moves the hole in the heap order to the parent. */
  lemma SiftUpStep(h: seq<Alert>, k: nat)
    requires HeapExceptUp(h, k) && 0 < k && !AlertLe(h[Parent(k)], h[k])
    ensures HeapExceptUp(Swap(h, Parent(k), k), Parent(k))
  {
    var p := Parent(k);
    var r := Swap(h, p, k);
    AlertLeTotal(h[p], h[k]);
    forall i | 0 < i < |r| && i != p ensures AlertLe(r[Parent(i)], r[i]) {
      if i == k {
      } else if Parent(i) == k {
      } else if Parent(i) == p {
        AlertLeTrans(h[k], h[p], h[i]);
      } else {
        assert r[i] == h[i] && r[Parent(i)] == h[Parent(i)];
      }
    }
    if 0 < p {
      forall c | 0 < c < |r| && Parent(c) == p ensures AlertLe(r[Parent(p)], r[c]) {
        assert r[Parent(p)] == h[Parent(p)];
        if c != k {
          AlertLeTrans(h[Parent(p)], h[p], h[c]);
        }
      }
    }
  }

  /** One exchange of a sift-down, with the smaller child `m` of `k`, moves the
      hole in the heap order down to `m`. */
  lemma SiftDownStep(h: seq<Alert>, k: nat, m: nat)
    requires HeapExceptDown(h, k) && 0 < m < |h| && Parent(m) == k
    requires forall c :: 0 < c < |h| && Parent(c) == k ==> AlertLe(h[m], h[c])
    requires !AlertLe(h[k], h[m])
    ensures HeapExceptDown(Swap(h, k, m), m)
  {
    var r := Swap(h, k, m);
    AlertLeTotal(h[k], h[m]);
    forall i | 0 < i < |r| && Parent(i) != m ensures AlertLe(r[Parent(i)], r[i]) {
      if i == m {
      } else if i == k {
      } else if Parent(i) == k {
      } else {
        assert r[i] == h[i] && r[Parent(i)] == h[Parent(i)];
      }
    }
    forall c | 0 < c < |r| && Parent(c) == m ensures AlertLe(r[Parent(m)], r[c]) {
      assert r[c] == h[c];
    }
  }

  /** `heapq.heappush`: add `x` to the heap. */
  method HeapPush(h: seq<Alert>, x: Alert) returns (r: seq<Alert>)
    requires IsHeap(h)
    ensures IsHeap(r)
    ensures multiset(r) == multiset(h) + multiset{x}
  {
    r := h + [x];
    var k: nat := |h|;
    assert r[..|h|] == h;
    while 0 < k && !AlertLe(r[Parent(k)], r[k])
      invariant HeapExceptUp(r, k)
      invariant multiset(r) == multiset(h) + multiset{x}
    {
      SiftUpStep(r, k);
      r := Swap(r, Parent(k), k);
      k := Parent(k);
    }
  }

  /** Moving the last element of a heap to the root leaves heap order broken
      only below the root, and removes exactly the old root. */
  lemma LastToRoot(h: seq<Alert>)
    requires IsHeap(h) && |h| > 1
    ensures HeapExceptDown(h[..|h| - 1][0 := h[|h| - 1]], 0)
    ensures multiset(h[..|h| - 1][0 := h[|h| - 1]]) == multiset(h) - multiset{h[0]}
  {
    var n := |h| - 1;
    var r := h[..n][0 := h[n]];
    assert h == [h[0]] + h[1..n] + [h[n]];
    assert r == [h[n]] + h[1..n];
    forall i | 0 < i < |r| && Parent(i) != 0 ensures AlertLe(r[Parent(i)], r[i]) {
      assert r[i] == h[i] && r[Parent(i)] == h[Parent(i)];
    }
  }

  /** The child of `k` a sift-down exchanges with: the smaller of its (one or two) children. */
  function SmallerChild(h: seq<Alert>, k: nat): (m: nat)
    requires 2 * k + 1 < |h|
    ensures 0 < m < |h| && Parent(m) == k
    ensures forall c :: 0 < c < |h| && Parent(c) == k ==> AlertLe(h[m], h[c])
  {
    var l := 2 * k + 1;
    assert forall c :: 0 < c < |h| && Parent(c) == k ==> c == l || c == l + 1;
    if l + 1 < |h| && !AlertLe(h[l], h[l + 1]) then
      AlertLeTotal(h[l], h[l + 1]);
      AlertLeRefl(h[l + 1]);
      l + 1
    else
      AlertLeRefl(h[l]);
      l
  }

  /** A sift-down stops once `k` is no greater than its smaller child. */
  lemma SiftDownDone(h: seq<Alert>, k: nat, m: nat)
    requires HeapExceptDown(h, k) && 0 < m < |h| && Parent(m) == k
    requires forall c :: 0 < c < |h| && Parent(c) == k ==> AlertLe(h[m], h[c])
    requires AlertLe(h[k], h[m])
    ensures IsHeap(h)
  {
    forall c | 0 < c < |h| && Parent(c) == k ensures AlertLe(h[k], h[c]) {
      AlertLeTrans(h[k], h[m], h[c]);
    }
  }

  /** `heapq.heappop`: remove and return the least alert of a non-empty heap. */
  method HeapPop(h: seq<Alert>) returns (x: Alert, r: seq<Alert>)
    requires IsHeap(h) && h != []
    ensures IsHeap(r)
    ensures IsMinimum(x, multiset(h))
    ensures multiset(r) == multiset(h) - multiset{x}
  {
    x := h[0];
    RootIsMinimum(h);
    var n := |h| - 1;
    if n == 0 {
      r := [];
      return;
    }
    LastToRoot(h);
    r := h[..n][0 := h[n]];
    var k: nat, done := 0, false;
    while !done
      invariant HeapExceptDown(r, k)
      invariant done ==> IsHeap(r)
      invariant multiset(r) == multiset(h) - multiset{x}
      decreases |r| - k, !done
    {
      if 2 * k + 1 < |r| {
        var m := SmallerChild(r, k);
        if AlertLe(r[k], r[m]) {
          SiftDownDone(r, k, m);
          done := true;
        } else {
          SiftDownStep(r, k, m);
          r := Swap(r, k, m);
          k := m;
        }
      } else {
        done := true;
      }
    }
  }
}
