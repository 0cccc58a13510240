/** Facts about sequences used by the ordered dictionary and by the crawl:
  * distinct elements and "first occurrences in order". */
module Seqs {

  predicate NoDuplicates<T(==)>(s: seq<T>) {
    forall i, j :: 0 <= i < j < |s| ==> s[i] != s[j]
  }

  /** `d` followed, in order, by each element of `c` that is not already present
    * (in `d` or earlier in `c`). */
  function Extend<T(==)>(d: seq<T>, c: seq<T>): seq<T>
    decreases |c|
  {
    if c == [] then d
    else
      var e := Extend(d, c[..|c| - 1]);
      if c[|c| - 1] in e then e else e + [c[|c| - 1]]
  }

  /** The first occurrence of every element of `s`, in order of first occurrence. */
  function Dedup<T(==)>(s: seq<T>): seq<T> {
    Extend([], s)
  }

  /** The elements of `c` that are not in `s`, in order. */
  function Without<T(==)>(c: seq<T>, s: set<T>): seq<T>
    decreases |c|
  {
    if c == [] then []
    else Without(c[..|c| - 1], s) + (if c[|c| - 1] in s then [] else [c[|c| - 1]])
  }

  /** Extending never disturbs what is already there, and adds exactly the new elements. */
  lemma {:induction false} ExtendGrows<T>(d: seq<T>, c: seq<T>)
    ensures |d| <= |Extend(d, c)| && Extend(d, c)[..|d|] == d
    ensures forall x :: x in Extend(d, c) <==> x in d || x in c
    decreases |c|
  {
    if c != [] {
      var c' := c[..|c| - 1];
      ExtendGrows(d, c');
      assert c == c' + [c[|c| - 1]];
    }
  }

  lemma {:induction false} ExtendNoDuplicates<T>(d: seq<T>, c: seq<T>)
    requires NoDuplicates(d)
    ensures NoDuplicates(Extend(d, c))
    decreases |c|
  {
    if c != [] {
      ExtendNoDuplicates(d, c[..|c| - 1]);
    }
  }

  /** Extending by `a + b` is extending by `a`, then by `b`. */
  lemma {:induction false} ExtendConcat<T>(d: seq<T>, a: seq<T>, b: seq<T>)
    ensures Extend(d, a + b) == Extend(Extend(d, a), b)
    decreases |b|
  {
    if b == [] {
      assert a + b == a;
    } else {
      var b' := b[..|b| - 1];
      assert (a + b)[..|a + b| - 1] == a + b';
      ExtendConcat(d, a, b');
    }
  }

  /** Dropping elements that `d` already holds changes nothing. */
  lemma {:induction false} ExtendWithout<T>(d: seq<T>, c: seq<T>, s: set<T>)
    requires forall x :: x in s ==> x in d
    ensures Extend(d, Without(c, s)) == Extend(d, c)
    decreases |c|
  {
    if c != [] {
      var c', x := c[..|c| - 1], c[|c| - 1];
      var w, w' := Without(c, s), Without(c', s);
      ExtendWithout(d, c', s);
      ExtendGrows(d, c');
      var e := Extend(d, c');
      if x in s {
        assert w == w';
        assert x in e;
        assert Extend(d, c) == e;
      } else {
        assert w == w' + [x];
        assert w[..|w| - 1] == w';
        assert Extend(d, w) == if x in e then e else e + [x];
      }
    }
  }

  lemma DedupConcat<T>(a: seq<T>, b: seq<T>)
    ensures Dedup(a + b) == Extend(Dedup(a), b)
  {
    ExtendConcat([], a, b);
  }

  /** A sequence without duplicates is its own first-occurrence list. */
  lemma {:induction false} DedupOfDistinct<T>(s: seq<T>)
    requires NoDuplicates(s)
    ensures Dedup(s) == s
    decreases |s|
  {
    if s != [] {
      var s' := s[..|s| - 1];
      DedupOfDistinct(s');
      assert s == s' + [s[|s| - 1]];
    }
  }

  /** First occurrences are distinct, and are exactly the elements. */
  lemma DedupContents<T>(s: seq<T>)
    ensures NoDuplicates(Dedup(s))
    ensures forall x :: x in Dedup(s) <==> x in s
  {
    ExtendNoDuplicates([], s);
    ExtendGrows([], s);
  }

  /** The first occurrences of a prefix are a prefix of the first occurrences. */
  lemma DedupPrefix<T>(a: seq<T>, b: seq<T>)
    ensures |Dedup(a)| <= |Dedup(a + b)| && Dedup(a + b)[..|Dedup(a)|] == Dedup(a)
  {
    DedupConcat(a, b);
    ExtendGrows(Dedup(a), b);
  }

  /** Meeting an element again changes nothing. */
  lemma DedupSkip<T>(a: seq<T>, x: T, b: seq<T>)
    requires x in a
    ensures Dedup(a + [x] + b) == Dedup(a + b)
  {
    DedupConcat(a + [x], b);
    DedupConcat(a, [x]);
    DedupConcat(a, b);
    DedupContents(a);
    assert [x][..0] == [];
    assert Extend(Dedup(a), [x]) == Dedup(a);
  }

  lemma DedupSingle<T>(x: T)
    ensures Dedup([x]) == [x]
  {
    assert [x][..0] == [];
    assert Extend([], [x][..0]) == [];
  }

  /** `Without` only drops elements. */
  lemma {:induction false} WithoutContents<T>(c: seq<T>, s: set<T>)
    ensures forall x :: x in Without(c, s) ==> x in c && x !in s
    decreases |c|
  {
    if c != [] {
      WithoutContents(c[..|c| - 1], s);
    }
  }

  /** `Without` keeps every copy of an element outside `s`: the filter before `extend`
    * compares against the queue as it was, so a name that a page lists several times,
    * and that is neither queued nor visited, is queued as many times (the later copies
    * are skipped when dequeued). */
  lemma {:induction false} WithoutKeepsUnseen<T>(c: seq<T>, s: set<T>, x: T)
    requires x !in s
    ensures multiset(Without(c, s))[x] == multiset(c)[x]
    decreases |c|
  {
    if c != [] {
      var c' := c[..|c| - 1];
      assert c == c' + [c[|c| - 1]];
      WithoutKeepsUnseen(c', s, x);
    }
  }

  /** Appending only the elements not yet seen leaves the first occurrences as if all
    * had been appended. */
  lemma DedupAppendUnseen<T>(a: seq<T>, d: seq<T>, c: seq<T>, s: set<T>)
    requires Dedup(a) == Dedup(d)
    requires forall x :: x in s ==> x in a
    ensures Dedup(a + Without(c, s)) == Dedup(d + c)
  {
    DedupConcat(a, Without(c, s));
    DedupContents(a);
    ExtendWithout(Dedup(a), c, s);
    DedupConcat(d, c);
  }
}
