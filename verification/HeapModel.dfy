/** The order theory of the fixed-capacity binary heap: what one sift does to the
    occupied prefix of the backing array, seen as a sequence. `cmp(parent, child)` is
    the injected Compare callback, true when the pair is in heap order. */
module HeapModel {

  ghost predicate TotalPreorder<T(!new)>(cmp: (T, T) -> bool) {
    && (forall x, y :: cmp(x, y) || cmp(y, x))
    && (forall x, y, z :: cmp(x, y) && cmp(y, z) ==> cmp(x, z))
  }

  function Parent(c: nat): nat
    requires c > 0
  {
    (c - 1) / 2
  }

  /** Every parent/child pair whose parent is at `lo` or later is in order. */
  ghost predicate HeapFrom<T>(s: seq<T>, lo: nat, cmp: (T, T) -> bool) {
    forall c :: 0 < c < |s| && Parent(c) >= lo ==> cmp(s[Parent(c)], s[c])
  }

  ghost predicate IsHeap<T>(s: seq<T>, cmp: (T, T) -> bool) {
    HeapFrom(s, 0, cmp)
  }

  function Swap<T>(s: seq<T>, i: nat, j: nat): (r: seq<T>)
    requires i < |s| && j < |s|
    ensures |r| == |s|
  {
    s[i := s[j]][j := s[i]]
  }

  lemma SwapKeepsElements<T>(s: seq<T>, i: nat, j: nat)
    requires i < |s| && j < |s|
    ensures multiset(Swap(s, i, j)) == multiset(s)
  {
  }

  // ---------- sift down ----------

  /** The index that takes r's place: r itself when both its pairs are in order. */
  function Preferred<T>(s: seq<T>, r: nat, cmp: (T, T) -> bool): (b: nat)
    ensures b == r || ((b == 2 * r + 1 || b == 2 * r + 2) && b < |s|)
  {
    var left, right := 2 * r + 1, 2 * r + 2;
    var b := if left < |s| && !cmp(s[r], s[left]) then left else r;
    if right < |s| && !cmp(s[b], s[right]) then right else b
  }

  /** Which of the three it is: the root stays when neither child must come before it; else
      the left child rises unless the right one must come before it. */
  lemma PreferredIs<T>(s: seq<T>, r: nat, cmp: (T, T) -> bool)
    requires r < |s|
    ensures var b, left, right := Preferred(s, r, cmp), 2 * r + 1, 2 * r + 2;
            && (b == r <==> (left < |s| ==> cmp(s[r], s[left])) && (right < |s| ==> cmp(s[r], s[right])))
            && (b == left ==> left < |s| && !cmp(s[r], s[left]) && (right < |s| ==> cmp(s[left], s[right])))
            && (b == right ==> right < |s| && (cmp(s[r], s[left]) || !cmp(s[left], s[right])))
  {
  }

  function SiftDown<T>(s: seq<T>, r: nat, cmp: (T, T) -> bool): (t: seq<T>)
    ensures |t| == |s|
    decreases |s| - r
  {
    var b := Preferred(s, r, cmp);
    if b == r then s else SiftDown(Swap(s, r, b), b, cmp)
  }

  /** Where the sifted element comes to rest. */
  function SiftStop<T>(s: seq<T>, r: nat, cmp: (T, T) -> bool): (j: nat)
    ensures r <= j && (r < |s| ==> j < |s|)
    decreases |s| - r
  {
    var b := Preferred(s, r, cmp);
    if b == r then r else SiftStop(Swap(s, r, b), b, cmp)
  }

  /** Mid-sift invariant: from `lo` on only the pairs below `r` may be out of order,
      and r's parent is already in order with r's children. */
  ghost predicate Sinking<T>(s: seq<T>, lo: nat, r: nat, cmp: (T, T) -> bool) {
    && lo <= r < |s|
    && (forall c :: 0 < c < |s| && Parent(c) >= lo && Parent(c) != r ==> cmp(s[Parent(c)], s[c]))
    && (r > 0 && Parent(r) >= lo ==>
          forall c :: 0 < c < |s| && Parent(c) == r ==> cmp(s[Parent(r)], s[c]))
  }

  lemma SinkingStep<T(!new)>(s: seq<T>, lo: nat, r: nat, cmp: (T, T) -> bool)
    requires TotalPreorder(cmp) && Sinking(s, lo, r, cmp)
    ensures var b := Preferred(s, r, cmp);
            if b == r then HeapFrom(s, lo, cmp) else Sinking(Swap(s, r, b), lo, b, cmp)
  {
    var b := Preferred(s, r, cmp);
    forall c | 0 < c < |s| && Parent(c) == r
      ensures cmp(s[b], s[c])
    {
      assert c == 2 * r + 1 || c == 2 * r + 2;
    }
    if b != r {
      assert Parent(b) == r;
      var t := Swap(s, r, b);
      forall c | 0 < c < |t| && Parent(c) >= lo && Parent(c) != b
        ensures cmp(t[Parent(c)], t[c])
      {
        if Parent(c) == r {
          assert cmp(s[b], s[c]);
          assert cmp(s[b], s[r]);
        } else if c == r {
          assert cmp(s[Parent(r)], s[b]);
        }
      }
      forall c | 0 < c < |t| && Parent(c) == b
        ensures cmp(t[Parent(b)], t[c])
      {
        assert cmp(s[b], s[c]);
      }
    }
  }

  /** Sifting down restores the order of everything from `lo` on and moves no element
      in or out. */
  lemma {:induction false} SiftDownRestores<T(!new)>(s: seq<T>, lo: nat, r: nat, cmp: (T, T) -> bool)
    requires TotalPreorder(cmp) && Sinking(s, lo, r, cmp)
    ensures HeapFrom(SiftDown(s, r, cmp), lo, cmp)
    decreases |s| - r
  {
    SinkingStep(s, lo, r, cmp);
    var b := Preferred(s, r, cmp);
    if b != r {
      SiftDownRestores(Swap(s, r, b), lo, b, cmp);
    }
  }

  lemma {:induction false} SiftDownKeepsElements<T>(s: seq<T>, r: nat, cmp: (T, T) -> bool)
    requires r < |s|
    ensures multiset(SiftDown(s, r, cmp)) == multiset(s)
    ensures forall i :: 0 <= i < r ==> SiftDown(s, r, cmp)[i] == s[i]
    ensures SiftDown(s, r, cmp)[SiftStop(s, r, cmp)] == s[r]
    decreases |s| - r
  {
    var b := Preferred(s, r, cmp);
    if b != r {
      SwapKeepsElements(s, r, b);
      SiftDownKeepsElements(Swap(s, r, b), b, cmp);
    }
  }

  // ---------- the trail of a sift ----------

  /** Position i is `target` or one of its ancestors. */
  predicate OnPath(i: nat, target: nat)
    decreases target
  {
    i == target || (target > i && OnPath(i, Parent(target)))
  }

  lemma {:induction false} PathGoesDown(r: nat, target: nat)
    requires r < target && OnPath(r, target)
    ensures 2 * r + 2 <= target + 1
    ensures OnPath(2 * r + 1, target) != (2 * r + 2 <= target && OnPath(2 * r + 2, target))
    decreases target
  {
    var p := Parent(target);
    if p == r {
      assert target == 2 * r + 1 || target == 2 * r + 2;
    } else {
      PathGoesDown(r, p);
    }
  }

  lemma {:induction false} AncestorsAreLinear(a: nat, b: nat, target: nat)
    requires OnPath(a, target) && OnPath(b, target) && a <= b
    ensures OnPath(a, b)
    decreases target
  {
    if b != target {
      AncestorsAreLinear(a, b, Parent(target));
    }
  }

  lemma {:induction false} PathExtendsUp(r: nat, b: nat, target: nat)
    requires b > 0 && Parent(b) == r && OnPath(b, target)
    ensures OnPath(r, target)
    decreases target
  {
    if b != target {
      PathExtendsUp(r, b, Parent(target));
    }
  }

  /** Position c lies below r on the way from r to `stop`. */
  predicate OnTrail(r: nat, c: nat, stop: nat) {
    c > r && OnPath(r, c) && OnPath(c, stop)
  }

  /** What a sift from r to `stop` does to every position, and why it went that way: the
      elements on the trail move up one place, s[r] ends at `stop`, nothing else moves, and
      with s[r] in the parent's place each step was to the preferred child. */
  ghost predicate Trail<T>(s: seq<T>, r: nat, t: seq<T>, stop: nat, cmp: (T, T) -> bool) {
    && r <= stop < |s| == |t|
    && OnPath(r, stop)
    && t[stop] == s[r]
    && Preferred(s[stop := s[r]], stop, cmp) == stop
    && (forall c :: r < c < |s| && OnTrail(r, c, stop) ==>
          t[Parent(c)] == s[c] && Preferred(s[Parent(c) := s[r]], Parent(c), cmp) == c)
    && (forall i :: 0 <= i < |s| && i != r && !OnTrail(r, i, stop) ==> t[i] == s[i])
  }

  /** A position on the trail from r is the first step b or on the trail from there. */
  lemma BelowTheFirst(r: nat, b: nat, c: nat, stop: nat)
    requires b > 0 && Parent(b) == r && OnPath(b, stop) && OnTrail(r, c, stop)
    ensures c == b || (OnTrail(b, c, stop) && Parent(c) != r && Parent(c) >= b)
  {
    if c < b {
      AncestorsAreLinear(c, b, stop);
    } else if c > b {
      AncestorsAreLinear(b, c, stop);
    }
  }

  /** The choice looks at three positions only. */
  lemma PreferredLooksAt<T>(s: seq<T>, t: seq<T>, p: nat, cmp: (T, T) -> bool)
    requires p < |s| == |t| && s[p] == t[p]
    requires 2 * p + 1 < |s| ==> s[2 * p + 1] == t[2 * p + 1]
    requires 2 * p + 2 < |s| ==> s[2 * p + 2] == t[2 * p + 2]
    ensures Preferred(s, p, cmp) == Preferred(t, p, cmp)
  {
  }

  lemma TrailStep<T>(s: seq<T>, r: nat, t: seq<T>, stop: nat, cmp: (T, T) -> bool, c: nat)
    requires r < c < |s| && OnTrail(r, c, stop)
    requires var b := Preferred(s, r, cmp);
             b != r && Trail(Swap(s, r, b), b, t, stop, cmp)
    ensures t[Parent(c)] == s[c] && Preferred(s[Parent(c) := s[r]], Parent(c), cmp) == c
  {
    var b := Preferred(s, r, cmp);
    BelowTheFirst(r, b, c, stop);
    if c == b {
      assert s[r := s[r]] == s;
      assert !OnTrail(b, r, stop);
    } else {
      TrailDeeper(s, r, b, t, stop, cmp, c);
    }
  }

  lemma TrailDeeper<T>(s: seq<T>, r: nat, b: nat, t: seq<T>, stop: nat, cmp: (T, T) -> bool, c: nat)
    requires r < b < c < |s| && Parent(c) >= b && OnTrail(b, c, stop)
    requires Trail(Swap(s, r, b), b, t, stop, cmp)
    ensures t[Parent(c)] == s[c] && Preferred(s[Parent(c) := s[r]], Parent(c), cmp) == c
  {
    var s', p := Swap(s, r, b), Parent(c);
    assert t[p] == s'[c];
    assert Preferred(s'[p := s'[b]], p, cmp) == c;
    PreferredLooksAt(s[p := s[r]], s'[p := s'[b]], p, cmp);
  }

  lemma OffTrail<T>(s: seq<T>, r: nat, t: seq<T>, stop: nat, cmp: (T, T) -> bool, i: nat)
    requires i < |s| && i != r && !OnTrail(r, i, stop)
    requires var b := Preferred(s, r, cmp);
             b != r && Trail(Swap(s, r, b), b, t, stop, cmp)
    ensures t[i] == s[i]
  {
    var b := Preferred(s, r, cmp);
    assert OnTrail(r, b, stop);
    if OnTrail(b, i, stop) {
      PathExtendsUp(r, b, i);
    }
  }

  lemma TrailGrows<T>(s: seq<T>, r: nat, t: seq<T>, stop: nat, cmp: (T, T) -> bool)
    requires r < |s|
    requires var b := Preferred(s, r, cmp);
             b != r && Trail(Swap(s, r, b), b, t, stop, cmp)
    ensures Trail(s, r, t, stop, cmp)
  {
    var b := Preferred(s, r, cmp);
    var s' := Swap(s, r, b);
    PathExtendsUp(r, b, stop);
    PreferredLooksAt(s[stop := s[r]], s'[stop := s'[b]], stop, cmp);
    forall c | r < c < |s| && OnTrail(r, c, stop)
      ensures t[Parent(c)] == s[c] && Preferred(s[Parent(c) := s[r]], Parent(c), cmp) == c
    {
      TrailStep(s, r, t, stop, cmp, c);
    }
    forall i | 0 <= i < |s| && i != r && !OnTrail(r, i, stop)
      ensures t[i] == s[i]
    {
      OffTrail(s, r, t, stop, cmp, i);
    }
  }

  /** A sift is pinned by its trail, whatever Compare answers. */
  lemma {:induction false} SiftDownTrail<T>(s: seq<T>, r: nat, cmp: (T, T) -> bool)
    requires r < |s|
    ensures Trail(s, r, SiftDown(s, r, cmp), SiftStop(s, r, cmp), cmp)
    decreases |s| - r
  {
    var b := Preferred(s, r, cmp);
    if b == r {
      assert s[r := s[r]] == s;
    } else {
      SiftDownTrail(Swap(s, r, b), b, cmp);
      TrailGrows(s, r, SiftDown(s, r, cmp), SiftStop(s, r, cmp), cmp);
    }
  }

  /** One sift from `lo` extends the ordered region from lo + 1 down to lo. */
  lemma SiftDownOrders<T(!new)>(s: seq<T>, lo: nat, cmp: (T, T) -> bool)
    requires TotalPreorder(cmp) && lo < |s| && HeapFrom(s, lo + 1, cmp)
    ensures HeapFrom(SiftDown(s, lo, cmp), lo, cmp)
    ensures multiset(SiftDown(s, lo, cmp)) == multiset(s)
  {
    SiftDownKeepsElements(s, lo, cmp);
    SiftDownRestores(s, lo, lo, cmp);
  }

  // ---------- sift up ----------

  function SiftUp<T>(s: seq<T>, k: nat, cmp: (T, T) -> bool): (t: seq<T>)
    requires k < |s|
    ensures |t| == |s|
    decreases k
  {
    if k == 0 then s
    else
      var p := Parent(k);
      SiftUp(if cmp(s[p], s[k]) then s else Swap(s, k, p), p, cmp)
  }

  /** Mid-sift invariant: only the pair above `k` may be out of order, and k's parent is
      in order with k's children. */
  ghost predicate Rising<T>(s: seq<T>, k: nat, cmp: (T, T) -> bool) {
    && k < |s|
    && (forall c :: 0 < c < |s| && c != k ==> cmp(s[Parent(c)], s[c]))
    && (k > 0 ==> forall c :: 0 < c < |s| && Parent(c) == k ==> cmp(s[Parent(k)], s[c]))
  }

  lemma RisingStep<T(!new)>(s: seq<T>, k: nat, cmp: (T, T) -> bool)
    requires TotalPreorder(cmp) && Rising(s, k, cmp) && k > 0
    ensures var p := Parent(k);
            Rising(if cmp(s[p], s[k]) then s else Swap(s, k, p), p, cmp)
  {
    var p := Parent(k);
    if !cmp(s[p], s[k]) {
      var t := Swap(s, k, p);
      forall c | 0 < c < |t| && c != p
        ensures cmp(t[Parent(c)], t[c])
      {
        assert cmp(s[k], s[p]);
        if c != k {
          assert cmp(s[Parent(c)], s[c]);
        }
      }
      forall c | 0 < c < |t| && Parent(c) == p && p > 0
        ensures cmp(t[Parent(p)], t[c])
      {
        assert cmp(s[Parent(p)], s[p]);
      }
    } else if p > 0 {
      forall c | 0 < c < |s| && Parent(c) == p
        ensures cmp(s[Parent(p)], s[c])
      {
        assert cmp(s[Parent(p)], s[p]) && cmp(s[p], s[c]);
      }
    }
  }

  lemma {:induction false} SiftUpRestores<T(!new)>(s: seq<T>, k: nat, cmp: (T, T) -> bool)
    requires TotalPreorder(cmp) && Rising(s, k, cmp)
    ensures IsHeap(SiftUp(s, k, cmp), cmp)
    ensures multiset(SiftUp(s, k, cmp)) == multiset(s)
    decreases k
  {
    if k > 0 {
      var p := Parent(k);
      RisingStep(s, k, cmp);
      SwapKeepsElements(s, k, p);
      SiftUpRestores(if cmp(s[p], s[k]) then s else Swap(s, k, p), p, cmp);
    }
  }

  /** What a rise from k to `stop` does to every position, and why it went no further: each
      element passed must come after s[k] and moves down one place, nothing else moves. */
  ghost predicate Climb<T>(s: seq<T>, k: nat, t: seq<T>, stop: nat, cmp: (T, T) -> bool) {
    && stop <= k < |s| == |t|
    && OnPath(stop, k)
    && t[stop] == s[k]
    && (stop > 0 ==> cmp(s[Parent(stop)], s[k]))
    && (forall c :: stop < c <= k && OnPath(c, k) && OnPath(stop, c) ==>
          t[c] == s[Parent(c)] && !cmp(s[Parent(c)], s[k]))
    && (forall i :: 0 <= i < |s| && i != stop && !(OnPath(i, k) && OnPath(stop, i)) ==> t[i] == s[i])
  }

  lemma {:induction false} SiftUpOfHeap<T>(s: seq<T>, k: nat, cmp: (T, T) -> bool)
    requires k < |s| && IsHeap(s, cmp)
    ensures SiftUp(s, k, cmp) == s
    decreases k
  {
    if k > 0 {
      SiftUpOfHeap(s, Parent(k), cmp);
    }
  }

  lemma {:induction false} PathIsClosed(i: nat, target: nat)
    requires i > 0 && OnPath(i, target)
    ensures OnPath(Parent(i), target)
    decreases target
  {
    if i != target {
      PathIsClosed(i, Parent(target));
    }
  }

  lemma ClimbGrows<T>(s: seq<T>, k: nat, t: seq<T>, stop: nat, cmp: (T, T) -> bool)
    requires 0 < k < |s| && !cmp(s[Parent(k)], s[k])
    requires Climb(Swap(s, k, Parent(k)), Parent(k), t, stop, cmp)
    ensures Climb(s, k, t, stop, cmp)
  {
    var p := Parent(k);
    var s' := Swap(s, k, p);
    assert !OnPath(k, p);
    forall c | stop < c <= k && OnPath(c, k) && OnPath(stop, c)
      ensures t[c] == s[Parent(c)] && !cmp(s[Parent(c)], s[k])
    {
      if c < k {
        assert OnPath(c, p) && c <= p;
        assert t[c] == s'[Parent(c)] && !cmp(s'[Parent(c)], s'[p]);
      } else {
        assert t[k] == s'[k];
      }
    }
    forall i | 0 <= i < |s| && i != stop && !(OnPath(i, k) && OnPath(stop, i))
      ensures t[i] == s[i]
    {
      assert t[i] == s'[i];
    }
  }

  /** Bubbling up is pinned by where it stops: the element settles below the first ancestor
      that may stay above it. */
  lemma {:induction false} SiftUpClimbs<T(!new)>(s: seq<T>, k: nat, cmp: (T, T) -> bool) returns (stop: nat)
    requires TotalPreorder(cmp) && Rising(s, k, cmp)
    ensures Climb(s, k, SiftUp(s, k, cmp), stop, cmp)
    decreases k
  {
    if k == 0 {
      stop := 0;
    } else if cmp(s[Parent(k)], s[k]) {
      assert IsHeap(s, cmp);
      SiftUpOfHeap(s, Parent(k), cmp);
      stop := k;
    } else {
      RisingStep(s, k, cmp);
      stop := SiftUpClimbs(Swap(s, k, Parent(k)), Parent(k), cmp);
      ClimbGrows(s, k, SiftUp(s, k, cmp), stop, cmp);
    }
  }

  /** Bubbling never stops half way: whatever the contents, the root ends in order with every
      element that was on the way up, and only positions on the way are written. */
  lemma {:induction false} SiftUpReachesRoot<T(!new)>(s: seq<T>, k: nat, cmp: (T, T) -> bool)
    requires TotalPreorder(cmp) && k < |s|
    ensures forall c :: 0 <= c < |s| && OnPath(c, k) ==> cmp(SiftUp(s, k, cmp)[0], s[c])
    ensures forall i :: 0 <= i < |s| && !OnPath(i, k) ==> SiftUp(s, k, cmp)[i] == s[i]
    ensures multiset(SiftUp(s, k, cmp)) == multiset(s)
    decreases k
  {
    if k > 0 {
      var p := Parent(k);
      var u := if cmp(s[p], s[k]) then s else Swap(s, k, p);
      SwapKeepsElements(s, k, p);
      SiftUpReachesRoot(u, p, cmp);
      assert OnPath(p, p) && !OnPath(k, p);
      forall c | 0 <= c < |s| && OnPath(c, k) ensures cmp(SiftUp(s, k, cmp)[0], s[c]) {
        assert cmp(SiftUp(s, k, cmp)[0], u[p]);
        assert c != k ==> OnPath(c, p);
      }
    }
  }

  // ---------- whole operations on the occupied prefix ----------

  function Inserted<T>(s: seq<T>, x: T, cmp: (T, T) -> bool): seq<T> {
    SiftUp(s + [x], |s|, cmp)
  }

  /** Sifts the positions k, k-1, ..., 1 in that order. */
  function SiftedBelowRoot<T>(s: seq<T>, k: nat, cmp: (T, T) -> bool): (t: seq<T>)
    requires k < |s|
    ensures |t| == |s|
    decreases k
  {
    if k == 0 then s else SiftedBelowRoot(SiftDown(s, k, cmp), k - 1, cmp)
  }

  /** A heapify's contents when only the sift of the root is left to do. */
  function BeforeRoot<T>(s: seq<T>, cmp: (T, T) -> bool): (t: seq<T>)
    requires s != []
    ensures |t| == |s|
  {
    SiftedBelowRoot(s, Parent(|s|), cmp)
  }

  function Heapified<T>(s: seq<T>, cmp: (T, T) -> bool): (t: seq<T>)
    requires s != []
    ensures |t| == |s|
  {
    SiftDown(BeforeRoot(s, cmp), 0, cmp)
  }

  /** What is left after the root is replaced by the last element and sifted. */
  function Popped<T>(s: seq<T>, cmp: (T, T) -> bool): (t: seq<T>)
    requires s != []
    ensures |t| == |s| - 1
  {
    var n := |s| - 1;
    if n == 0 then [] else SiftDown(s[..n][0 := s[n]], 0, cmp)
  }

  lemma InsertedIsHeap<T(!new)>(s: seq<T>, x: T, cmp: (T, T) -> bool)
    requires TotalPreorder(cmp) && IsHeap(s, cmp)
    ensures IsHeap(Inserted(s, x, cmp), cmp)
    ensures multiset(Inserted(s, x, cmp)) == multiset(s) + multiset{x}
  {
    var t := s + [x];
    forall c | 0 < c < |t| && c != |s|
      ensures cmp(t[Parent(c)], t[c])
    {
      assert t[c] == s[c] && t[Parent(c)] == s[Parent(c)];
    }
    SiftUpRestores(t, |s|, cmp);
  }

  lemma {:induction false} SiftedBelowRootIsOrdered<T(!new)>(s: seq<T>, k: nat, cmp: (T, T) -> bool)
    requires TotalPreorder(cmp) && k < |s| && HeapFrom(s, k + 1, cmp)
    ensures HeapFrom(SiftedBelowRoot(s, k, cmp), 1, cmp)
    ensures multiset(SiftedBelowRoot(s, k, cmp)) == multiset(s)
    ensures SiftedBelowRoot(s, k, cmp)[0] == s[0]
    decreases k
  {
    if k > 0 {
      SiftDownOrders(s, k, cmp);
      SiftDownKeepsElements(s, k, cmp);
      SiftedBelowRootIsOrdered(SiftDown(s, k, cmp), k - 1, cmp);
    }
  }

  /** When only the root is left to sift, everything below it is in order and the root has
      not moved. */
  lemma BeforeRootIsOrdered<T(!new)>(s: seq<T>, cmp: (T, T) -> bool)
    requires TotalPreorder(cmp) && s != []
    ensures HeapFrom(BeforeRoot(s, cmp), 1, cmp)
    ensures multiset(BeforeRoot(s, cmp)) == multiset(s)
    ensures BeforeRoot(s, cmp)[0] == s[0]
  {
    SiftedBelowRootIsOrdered(s, Parent(|s|), cmp);
  }

  /** Heapify builds a heap out of any non-empty contents, without losing an element. */
  lemma HeapifiedIsHeap<T(!new)>(s: seq<T>, cmp: (T, T) -> bool)
    requires TotalPreorder(cmp) && s != []
    ensures IsHeap(Heapified(s, cmp), cmp)
    ensures multiset(Heapified(s, cmp)) == multiset(s)
  {
    BeforeRootIsOrdered(s, cmp);
    SiftDownOrders(BeforeRoot(s, cmp), 0, cmp);
  }

  /** The root of a heap is extreme: in order with every element. */
  lemma {:induction false} RootIsExtreme<T(!new)>(s: seq<T>, i: nat, cmp: (T, T) -> bool)
    requires TotalPreorder(cmp) && IsHeap(s, cmp) && i < |s|
    ensures cmp(s[0], s[i])
  {
    if i > 0 {
      RootIsExtreme(s, Parent(i), cmp);
    }
  }

  lemma PoppedIsHeap<T(!new)>(s: seq<T>, cmp: (T, T) -> bool)
    requires TotalPreorder(cmp) && IsHeap(s, cmp) && s != []
    ensures IsHeap(Popped(s, cmp), cmp)
    ensures multiset(Popped(s, cmp)) == multiset(s) - multiset{s[0]}
    ensures forall x :: x in s ==> cmp(s[0], x)
  {
    forall x | x in s ensures cmp(s[0], x) {
      var i :| 0 <= i < |s| && s[i] == x;
      RootIsExtreme(s, i, cmp);
    }
    var n := |s| - 1;
    assert s == [s[0]] + s[1..];
    if n > 0 {
      var t := s[..n][0 := s[n]];
      assert s[1..] == s[1..n] + [s[n]];
      assert t == [s[n]] + s[1..n];
      forall c | 0 < c < |t| && Parent(c) != 0
        ensures cmp(t[Parent(c)], t[c])
      {
        assert cmp(s[Parent(c)], s[c]);
      }
      SiftDownRestores(t, 0, 0, cmp);
      SiftDownKeepsElements(t, 0, cmp);
    }
  }

  /** Removing `x` from s to leave t took out an extreme element and kept the heap. */
  ghost predicate Extracts<T(!new)>(s: seq<T>, x: T, t: seq<T>, cmp: (T, T) -> bool) {
    TotalPreorder(cmp) && IsHeap(s, cmp) ==>
      && IsHeap(t, cmp)
      && multiset(t) == multiset(s) - multiset{x}
      && x in s && forall y :: y in s ==> cmp(x, y)
  }

  lemma PoppedExtracts<T(!new)>(s: seq<T>, cmp: (T, T) -> bool)
    requires s != []
    ensures Extracts(s, s[0], Popped(s, cmp), cmp)
  {
    if TotalPreorder(cmp) && IsHeap(s, cmp) {
      PoppedIsHeap(s, cmp);
    }
  }

  /** Adding `x` to s to give t kept the heap and lost nothing. */
  ghost predicate Admits<T(!new)>(s: seq<T>, x: T, t: seq<T>, cmp: (T, T) -> bool) {
    TotalPreorder(cmp) && IsHeap(s, cmp) ==>
      IsHeap(t, cmp) && multiset(t) == multiset(s) + multiset{x}
  }

  lemma InsertedAdmits<T(!new)>(s: seq<T>, x: T, cmp: (T, T) -> bool)
    ensures Admits(s, x, Inserted(s, x, cmp), cmp)
  {
    if TotalPreorder(cmp) && IsHeap(s, cmp) {
      InsertedIsHeap(s, x, cmp);
    }
  }
}
