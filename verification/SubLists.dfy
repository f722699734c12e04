/** In-order sub-lists: what is left of a list when some of its elements are dropped. */
module SubLists {

  predicate SubList<T(==)>(a: seq<T>, b: seq<T>)
    decreases |b|
  {
    || a == []
    || (b != [] && a[|a| - 1] == b[|b| - 1] && SubList(a[..|a| - 1], b[..|b| - 1]))
    || (b != [] && SubList(a, b[..|b| - 1]))
  }

  lemma {:induction false} Reflexive<T>(a: seq<T>)
    ensures SubList(a, a)
  {
    if a != [] { Reflexive(a[..|a| - 1]); }
  }

  lemma {:induction false} Transitive<T>(a: seq<T>, b: seq<T>, c: seq<T>)
    requires SubList(a, b) && SubList(b, c)
    ensures SubList(a, c)
    decreases |c|
  {
    if a != [] && b != [] && c != [] {
      var a1, b1, c1 := a[..|a| - 1], b[..|b| - 1], c[..|c| - 1];
      if SubList(b, c1) {
        Transitive(a, b, c1);
      } else if SubList(a, b1) {
        Transitive(a, b1, c1);
      } else {
        Transitive(a1, b1, c1);
      }
    }
  }

  lemma {:induction false} AppendRight<T>(a: seq<T>, b: seq<T>, x: seq<T>)
    requires SubList(a, b)
    ensures SubList(a, b + x)
    decreases |x|
  {
    if x == [] {
      assert b + x == b;
    } else {
      AppendRight(a, b, x[..|x| - 1]);
      assert (b + x)[..|b + x| - 1] == b + x[..|x| - 1];
    }
  }

  lemma {:induction false} AppendBoth<T>(a: seq<T>, b: seq<T>, x: seq<T>)
    requires SubList(a, b)
    ensures SubList(a + x, b + x)
    decreases |x|
  {
    if x == [] {
      assert a + x == a && b + x == b;
    } else {
      AppendBoth(a, b, x[..|x| - 1]);
      assert (a + x)[..|a + x| - 1] == a + x[..|x| - 1];
      assert (b + x)[..|b + x| - 1] == b + x[..|x| - 1];
    }
  }

  lemma DropMiddle<T>(a: seq<T>, b: seq<T>, c: seq<T>)
    ensures SubList(a + c, a + b + c)
  {
    Reflexive(a);
    AppendRight(a, a, b);
    AppendBoth(a, a + b, c);
  }

  /** Each element keeps its place in the order, and none occurs more often than before. */
  lemma {:induction false} NoneAdded<T>(a: seq<T>, b: seq<T>)
    requires SubList(a, b)
    ensures |a| <= |b| && multiset(a) <= multiset(b)
    decreases |b|
  {
    if a != [] {
      var a1, b1 := a[..|a| - 1], b[..|b| - 1];
      assert a == a1 + [a[|a| - 1]] && b == b1 + [b[|b| - 1]];
      if SubList(a, b1) { NoneAdded(a, b1); } else { NoneAdded(a1, b1); }
    }
  }
}
