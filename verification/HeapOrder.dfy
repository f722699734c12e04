/** The order that container/heap maintains, on the sequence of keys alone. */
module HeapOrder {

  function Parent(c: nat): nat
    requires c > 0
  {
    (c - 1) / 2
  }

  /** The first n keys form a heap: no key is less than its parent's. */
  predicate Ordered(ts: seq<int>, n: nat)
    requires n <= |ts|
  {
    forall c :: 0 < c < n ==> ts[Parent(c)] <= ts[c]
  }

  /** A heap, except that the key at j may be too small for its place. */
  predicate OrderedButUp(ts: seq<int>, j: nat)
    requires j < |ts|
  {
    && (forall c :: 0 < c < |ts| && c != j ==> ts[Parent(c)] <= ts[c])
    && (forall c :: 0 < c < |ts| && Parent(c) == j && j > 0 ==> ts[Parent(j)] <= ts[c])
  }

  /**
   * The first n keys form a heap, except that the key at i may be too large for its place, and, while i
   * is still where sifting down started, too small.
   */
  predicate OrderedButDown(ts: seq<int>, n: nat, start: nat, i: nat)
    requires n <= |ts|
  {
    && start <= i
    && (forall c :: 0 < c < n && Parent(c) != i && (c != start || i != start) ==> ts[Parent(c)] <= ts[c])
    && (forall c :: 0 < c < n && Parent(c) == i && i > 0 ==> ts[Parent(i)] <= ts[c])
  }

  function Swapped<T>(s: seq<T>, i: nat, j: nat): seq<T>
    requires i < |s| && j < |s|
  {
    s[i := s[j]][j := s[i]]
  }

  lemma {:induction false} UpStep(ts: seq<int>, j: nat)
    requires 0 < j < |ts| && OrderedButUp(ts, j) && ts[j] < ts[Parent(j)]
    ensures OrderedButUp(Swapped(ts, Parent(j), j), Parent(j))
  {
    var i := Parent(j);
    var us := Swapped(ts, i, j);
    forall c | 0 < c < |us| && c != i ensures us[Parent(c)] <= us[c] {
      if Parent(c) == j {
        assert ts[i] <= ts[c];
      }
    }
    forall c | 0 < c < |us| && Parent(c) == i && i > 0 ensures us[Parent(i)] <= us[c] {
      assert ts[Parent(i)] <= ts[i];
    }
  }

  lemma UpDone(ts: seq<int>, j: nat)
    requires j < |ts| && OrderedButUp(ts, j) && (j == 0 || ts[Parent(j)] <= ts[j])
    ensures Ordered(ts, |ts|)
  {
  }

  /** No child of i, among the first n keys, has a smaller key than k. */
  predicate ChildrenAtLeast(ts: seq<int>, n: nat, i: nat, k: int)
    requires n <= |ts|
  {
    forall c :: 0 < c < n && Parent(c) == i ==> k <= ts[c]
  }

  lemma DownStep(ts: seq<int>, n: nat, start: nat, i: nat, j: nat)
    requires n <= |ts| && 0 < j < n && Parent(j) == i && OrderedButDown(ts, n, start, i)
    requires ts[j] < ts[i]
    requires ChildrenAtLeast(ts, n, i, ts[j])
    ensures OrderedButDown(Swapped(ts, i, j), n, start, j)
  {
    var us := Swapped(ts, i, j);
    forall c | 0 < c < n && Parent(c) != j ensures us[Parent(c)] <= us[c] {
      if c == i {
        assert ts[Parent(i)] <= ts[j];
      } else if Parent(c) == i {
        assert c == j || us[c] == ts[c];
      }
    }
  }

  lemma DownDone(ts: seq<int>, n: nat, start: nat, i: nat)
    requires n <= |ts| && i < |ts| && OrderedButDown(ts, n, start, i)
    requires ChildrenAtLeast(ts, n, i, ts[i])
    ensures i > start || start == 0 ==> Ordered(ts, n)
    ensures n == |ts| && i == start ==> OrderedButUp(ts, start)
  {
  }

  lemma OrderedPrefix(ts: seq<int>, n: nat)
    requires n <= |ts| && Ordered(ts, n)
    ensures Ordered(ts[..n], n)
  {
  }

  /** The root holds the least key. */
  lemma {:induction false} RootLeast(ts: seq<int>, c: nat)
    requires c < |ts| && Ordered(ts, |ts|)
    ensures ts[0] <= ts[c]
  {
    if c > 0 {
      RootLeast(ts, Parent(c));
    }
  }

  /** Changing one key of a heap, either way, leaves a heap around it. */
  lemma KeyChanged(ts: seq<int>, i: nat, key: int)
    requires i < |ts| && Ordered(ts, |ts|)
    ensures OrderedButDown(ts[i := key], |ts|, i, i)
  {
    var us := ts[i := key];
    forall c | 0 < c < |us| && Parent(c) == i && i > 0 ensures us[Parent(i)] <= us[c] {
      assert ts[Parent(i)] <= ts[i] <= ts[c];
    }
  }

  lemma KeyAppended(ts: seq<int>, key: int)
    requires Ordered(ts, |ts|)
    ensures OrderedButUp(ts + [key], |ts|)
  {
  }

  /** Putting the last key at the root leaves a heap below it. */
  lemma RootReplaced(ts: seq<int>)
    requires ts != [] && Ordered(ts, |ts|)
    ensures OrderedButDown(Swapped(ts, 0, |ts| - 1), |ts| - 1, 0, 0)
  {
  }
}
