/** Address lists: duplicate-free lists, the first-occurrence de-duplication
    obtained by spreading a JavaScript `Set`, and removal of every copy of one
    element (`Array.prototype.filter`). */
module Lists {

  /** No element occurs twice. */
  predicate NoDuplicates<T(==)>(xs: seq<T>) {
    forall i, j :: 0 <= i < j < |xs| ==> xs[i] != xs[j]
  }

  /** Position of the first occurrence of `x` in `xs`. */
  function FirstIndex<T(==)>(xs: seq<T>, x: T): (i: nat)
    requires x in xs
    ensures i < |xs| && xs[i] == x
    ensures x !in xs[..i]
  {
    if xs[0] == x then 0
    else
      var j := FirstIndex(xs[1..], x);
      assert xs[..1 + j] == [xs[0]] + xs[1..][..j];
      1 + j
  }

  /** The elements of `xs`, each one kept at its first occurrence: what
      `[...new Set(xs)]` yields, since a `Set` iterates in insertion order
      and ignores repeated insertions. */
  function Dedup<T(==,!new)>(xs: seq<T>): (r: seq<T>)
    ensures forall x :: x in r <==> x in xs
    ensures NoDuplicates(r)
    ensures |r| <= |xs|
  {
    if |xs| == 0 then []
    else
      var init := Dedup(xs[..|xs| - 1]);
      var last := xs[|xs| - 1];
      assert xs == xs[..|xs| - 1] + [last];
      if last in init then init else init + [last]
  }

  /** Every kept element sits at its first occurrence in `xs`, and the kept
      elements appear in the order of those first occurrences. */
  lemma {:induction false} DedupKeepsFirstOccurrenceOrder<T(!new)>(xs: seq<T>)
    ensures forall i, j :: 0 <= i < j < |Dedup(xs)| ==>
      FirstIndex(xs, Dedup(xs)[i]) < FirstIndex(xs, Dedup(xs)[j])
  {
    if |xs| > 0 {
      var n := |xs| - 1;
      var p := xs[..n];
      var last := xs[n];
      assert xs == p + [last];
      DedupKeepsFirstOccurrenceOrder(p);
      var d := Dedup(p);
      forall y | y in p
        ensures FirstIndex(xs, y) == FirstIndex(p, y)
      {
        FirstIndexOfExtension(p, last, y);
      }
      if last !in d {
        assert last !in p;
        forall i | 0 <= i < |d|
          ensures FirstIndex(xs, d[i]) < FirstIndex(xs, last)
        {
          assert d[i] in p;
          assert xs[..n] == p;
          FirstIndexUnique(xs, last, n);
        }
      }
    }
  }

  /** A position holding `x` with no `x` before it is the first index. */
  lemma {:induction false} FirstIndexUnique<T>(xs: seq<T>, x: T, i: nat)
    requires i < |xs| && xs[i] == x && x !in xs[..i]
    ensures FirstIndex(xs, x) == i
  {
    if i > 0 {
      assert xs[0] in xs[..i];
      assert xs[1..][..i - 1] == xs[1..i];
      assert xs[..i] == [xs[0]] + xs[1..i];
      FirstIndexUnique(xs[1..], x, i - 1);
    }
  }

  /** Extending a list at the end does not move the first occurrence of an
      element it already contains. */
  lemma FirstIndexOfExtension<T>(p: seq<T>, last: T, y: T)
    requires y in p
    ensures FirstIndex(p + [last], y) == FirstIndex(p, y)
  {
    var q := p + [last];
    var i := FirstIndex(p, y);
    assert q[..i] == p[..i];
    FirstIndexUnique(q, y, i);
  }

  /** Appending an element not yet present keeps a list duplicate-free. */
  lemma AppendFreshKeepsNoDuplicates<T>(xs: seq<T>, x: T)
    requires NoDuplicates(xs) && x !in xs
    ensures NoDuplicates(xs + [x])
  {
    forall i, j | 0 <= i < j < |xs| + 1
      ensures (xs + [x])[i] != (xs + [x])[j]
    {
      if j == |xs| {
        assert (xs + [x])[i] == xs[i];
      }
    }
  }

  /** On a duplicate-free list de-duplication changes nothing. */
  lemma {:induction false} DedupOfDuplicateFree<T(!new)>(xs: seq<T>)
    requires NoDuplicates(xs)
    ensures Dedup(xs) == xs
  {
    if |xs| > 0 {
      var n := |xs| - 1;
      var p := xs[..n];
      assert NoDuplicates(p);
      DedupOfDuplicateFree(p);
      forall i | 0 <= i < n
        ensures p[i] != xs[n]
      {
        assert p[i] == xs[i];
      }
      assert xs == p + [xs[n]];
    }
  }

  /** De-duplicating `a + b` keeps the de-duplication of `a` as a prefix: the
      elements of `b` can only be appended behind it. */
  lemma {:induction false} DedupExtendsPrefix<T(!new)>(a: seq<T>, b: seq<T>)
    ensures Dedup(a) <= Dedup(a + b)
  {
    if |b| > 0 {
      var m := |b| - 1;
      assert (a + b)[..|a + b| - 1] == a + b[..m];
      DedupExtendsPrefix(a, b[..m]);
    } else {
      assert a + b == a;
    }
  }

  /** `Dedup(prior + added)` on a duplicate-free `prior` starts with `prior` itself. */
  lemma DedupAppendKeepsOld<T(!new)>(prior: seq<T>, added: seq<T>)
    requires NoDuplicates(prior)
    ensures prior <= Dedup(prior + added)
  {
    DedupOfDuplicateFree(prior);
    DedupExtendsPrefix(prior, added);
  }

  /** Appending only elements already present to a duplicate-free list
      de-duplicates back to that list. */
  lemma {:induction false} DedupAbsorbs<T(!new)>(prior: seq<T>, added: seq<T>)
    requires NoDuplicates(prior)
    requires forall x :: x in added ==> x in prior
    ensures Dedup(prior + added) == prior
  {
    if |added| == 0 {
      assert prior + added == prior;
      DedupOfDuplicateFree(prior);
    } else {
      var m := |added| - 1;
      assert (prior + added)[..|prior + added| - 1] == prior + added[..m];
      assert forall x :: x in added[..m] ==> x in added;
      DedupAbsorbs(prior, added[..m]);
      assert added[m] in added;
    }
  }

  /** De-duplicating twice is de-duplicating once. */
  lemma DedupIdempotent<T(!new)>(xs: seq<T>)
    ensures Dedup(Dedup(xs)) == Dedup(xs)
  {
    DedupOfDuplicateFree(Dedup(xs));
  }

  /** De-duplicating `a + b` de-duplicates `a` first. */
  lemma {:induction false} DedupOfAppended<T(!new)>(a: seq<T>, b: seq<T>)
    ensures Dedup(a + b) == Dedup(Dedup(a) + b)
    decreases |b|
  {
    if |b| == 0 {
      assert a + b == a;
      assert Dedup(a) + b == Dedup(a);
      DedupIdempotent(a);
    } else {
      var m := |b| - 1;
      assert (a + b)[..|a + b| - 1] == a + b[..m];
      assert (Dedup(a) + b)[..|Dedup(a) + b| - 1] == Dedup(a) + b[..m];
      DedupOfAppended(a, b[..m]);
      assert b[m] in Dedup(a + b[..m]) <==> b[m] in Dedup(Dedup(a) + b[..m]);
    }
  }

  /** The loop behind `[...new Set(xs)]`: walk `xs`, remember what has been
      inserted, and append each element the first time it is met. */
  method SpreadSet<T(==,!new)>(xs: seq<T>) returns (r: seq<T>)
    ensures r == Dedup(xs)
  {
    var seen: set<T> := {};
    r := [];
    var i := 0;
    while i < |xs|
      invariant 0 <= i <= |xs|
      invariant r == Dedup(xs[..i])
      invariant forall x :: x in seen <==> x in r
    {
      assert xs[..i + 1][..i] == xs[..i];
      if xs[i] !in seen {
        seen := seen + {xs[i]};
        r := r + [xs[i]];
      }
      i := i + 1;
    }
    assert xs[..|xs|] == xs;
  }

  /** `xs` with every copy of `x` removed, the rest in order: every other
      element keeps its number of copies. */
  function Without<T(==,!new)>(xs: seq<T>, x: T): (r: seq<T>)
    ensures forall y :: y in r <==> y in xs && y != x
    ensures forall y :: y != x ==> multiset(r)[y] == multiset(xs)[y]
    ensures x !in xs ==> r == xs
    ensures |r| <= |xs|
  {
    if |xs| == 0 then []
    else
      assert xs == [xs[0]] + xs[1..];
      if xs[0] == x then Without(xs[1..], x)
      else [xs[0]] + Without(xs[1..], x)
  }

  /** Removal works part by part: filtering a concatenation concatenates
      the filtered parts, in the same order. With the one-element case this
      pins down the order of what is kept. */
  lemma {:induction false} WithoutDistributes<T(!new)>(a: seq<T>, b: seq<T>, x: T)
    ensures Without(a + b, x) == Without(a, x) + Without(b, x)
    ensures |a| == 1 ==> Without(a, x) == if a[0] == x then [] else a
  {
    if |a| > 0 {
      assert (a + b)[0] == a[0];
      assert (a + b)[1..] == a[1..] + b;
      WithoutDistributes(a[1..], b, x);
      if |a| == 1 {
        assert a[1..] == [];
      }
    } else {
      assert a + b == b;
    }
  }

  /** The loop behind `xs.filter(y => y !== x)`: walk `xs` and append each
      element that differs from `x`. */
  method Filter<T(==,!new)>(xs: seq<T>, x: T) returns (r: seq<T>)
    ensures r == Without(xs, x)
  {
    r := [];
    var i := 0;
    while i < |xs|
      invariant 0 <= i <= |xs|
      invariant r == Without(xs[..i], x)
    {
      assert xs[..i + 1] == xs[..i] + [xs[i]];
      WithoutDistributes(xs[..i], [xs[i]], x);
      WithoutDistributes([xs[i]], [], x);
      if xs[i] != x {
        r := r + [xs[i]];
      }
      i := i + 1;
    }
    assert xs[..|xs|] == xs;
  }

  /** Removing an element keeps a duplicate-free list duplicate-free. */
  lemma {:induction false} WithoutKeepsNoDuplicates<T(!new)>(xs: seq<T>, x: T)
    requires NoDuplicates(xs)
    ensures NoDuplicates(Without(xs, x))
  {
    if |xs| > 0 {
      var t := xs[1..];
      assert NoDuplicates(t);
      WithoutKeepsNoDuplicates(t, x);
      if xs[0] != x {
        assert xs[0] !in t;
        assert xs[0] !in Without(t, x);
        var r := [xs[0]] + Without(t, x);
        forall i, j | 0 <= i < j < |r|
          ensures r[i] != r[j]
        {
          if i == 0 {
            assert r[j] in Without(t, x);
          } else {
            assert r[i] == Without(t, x)[i - 1] && r[j] == Without(t, x)[j - 1];
          }
        }
      }
    }
  }

  /** Removing the same element twice is removing it once. */
  lemma WithoutIdempotent<T(!new)>(xs: seq<T>, x: T)
    ensures Without(Without(xs, x), x) == Without(xs, x)
  {
  }
}
