/**
 * Order-preserving selection and de-duplication over sequences: the list
 * comprehensions with a condition, the "append if not yet seen" loops and
 * pandas' `drop_duplicates(keep="first")` all reduce to these.
 */
module Seqs {
  import opened Wrappers

  // ---------------------------------------------------------------- filter

  /** The elements of `xs` that satisfy `p`, in their original order. */
  function Filter<T(!new)>(xs: seq<T>, p: T -> bool): (r: seq<T>)
    ensures |r| <= |xs|
    ensures forall x :: x in r <==> x in xs && p(x)
  {
    if |xs| == 0 then []
    else
      var init := Filter(xs[..|xs| - 1], p);
      var last := xs[|xs| - 1];
      assert xs == xs[..|xs| - 1] + [last];
      if p(last) then init + [last] else init
  }

  /** Filtering by `p` and by its negation splits the sequence without losing an element. */
  lemma {:induction false} FilterPartition<T(!new)>(xs: seq<T>, p: T -> bool, q: T -> bool)
    requires forall x :: q(x) == !p(x)
    ensures |Filter(xs, p)| + |Filter(xs, q)| == |xs|
    ensures multiset(Filter(xs, p)) + multiset(Filter(xs, q)) == multiset(xs)
  {
    if |xs| > 0 {
      var init, last := xs[..|xs| - 1], xs[|xs| - 1];
      FilterPartition(init, p, q);
      assert xs == init + [last];
      if p(last) {
        assert Filter(xs, p) == Filter(init, p) + [last] && Filter(xs, q) == Filter(init, q);
      } else {
        assert Filter(xs, q) == Filter(init, q) + [last] && Filter(xs, p) == Filter(init, p);
      }
    }
  }

  // ---------------------------------------------------------------- sub-sequences

  /** `a` can be obtained from `b` by deleting elements, without reordering. */
  predicate Subseq<T(==)>(a: seq<T>, b: seq<T>)
    decreases |b|
  {
    if |a| == 0 then true
    else if |b| == 0 then false
    else if a[|a| - 1] == b[|b| - 1] then Subseq(a[..|a| - 1], b[..|b| - 1])
    else Subseq(a, b[..|b| - 1])
  }

  lemma SubseqExtend<T>(a: seq<T>, b: seq<T>, x: T)
    requires Subseq(a, b)
    ensures Subseq(a + [x], b + [x])
  {
    assert (a + [x])[..|a|] == a;
    assert (b + [x])[..|b|] == b;
  }

  lemma {:induction false} SubseqSkip<T>(a: seq<T>, b: seq<T>, x: T)
    requires Subseq(a, b)
    ensures Subseq(a, b + [x])
    decreases |a| + |b| + 1
  {
    assert (b + [x])[..|b|] == b;
    if |a| > 0 && a[|a| - 1] == x {
      SubseqDropLast(a, b);
    }
  }

  lemma {:induction false} SubseqDropLast<T>(a: seq<T>, b: seq<T>)
    requires |a| > 0 && Subseq(a, b)
    ensures Subseq(a[..|a| - 1], b)
    decreases |a| + |b|
  {
    var a', b' := a[..|a| - 1], b[..|b| - 1];
    assert b == b' + [b[|b| - 1]];
    if a[|a| - 1] == b[|b| - 1] {
      SubseqSkip(a', b', b[|b| - 1]);
    } else {
      SubseqDropLast(a, b');
      SubseqSkip(a', b', b[|b| - 1]);
    }
  }

  lemma {:induction false} SubseqReflexive<T>(a: seq<T>)
    ensures Subseq(a, a)
  {
    if |a| > 0 {
      SubseqReflexive(a[..|a| - 1]);
    }
  }

  /** Deleting elements twice is deleting elements. */
  lemma {:induction false} SubseqTransitive<T>(a: seq<T>, b: seq<T>, c: seq<T>)
    requires Subseq(a, b) && Subseq(b, c)
    ensures Subseq(a, c)
    decreases |c|
  {
    if |a| > 0 {
      var c' := c[..|c| - 1];
      assert c == c' + [c[|c| - 1]];
      if b[|b| - 1] == c[|c| - 1] {
        var b' := b[..|b| - 1];
        if a[|a| - 1] == b[|b| - 1] {
          SubseqTransitive(a[..|a| - 1], b', c');
        } else {
          SubseqTransitive(a, b', c');
          SubseqSkip(a, c', c[|c| - 1]);
        }
      } else {
        SubseqTransitive(a, b, c');
        SubseqSkip(a, c', c[|c| - 1]);
      }
    }
  }

  /** A sub-sequence is no longer and holds only elements of the whole. */
  lemma {:induction false} SubseqMembers<T>(a: seq<T>, b: seq<T>)
    requires Subseq(a, b)
    ensures |a| <= |b|
    ensures forall x :: x in a ==> x in b
    decreases |b|
  {
    if |a| > 0 {
      var b' := b[..|b| - 1];
      assert b == b' + [b[|b| - 1]];
      if a[|a| - 1] == b[|b| - 1] {
        SubseqMembers(a[..|a| - 1], b');
        assert a == a[..|a| - 1] + [a[|a| - 1]];
      } else {
        SubseqMembers(a, b');
      }
    }
  }

  /** A filter keeps the order of what it selects. */
  lemma {:induction false} FilterSubseq<T(!new)>(xs: seq<T>, p: T -> bool)
    ensures Subseq(Filter(xs, p), xs)
  {
    if |xs| > 0 {
      var init, last := xs[..|xs| - 1], xs[|xs| - 1];
      FilterSubseq(init, p);
      assert xs == init + [last];
      if p(last) {
        assert Filter(xs, p) == Filter(init, p) + [last];
        SubseqExtend(Filter(init, p), init, last);
      } else {
        assert Filter(xs, p) == Filter(init, p);
        SubseqSkip(Filter(init, p), init, last);
      }
    }
  }

  // ---------------------------------------------------------------- first occurrences

  /** The position of the first occurrence of `x` in `xs`. */
  function FirstIndex<T(==)>(xs: seq<T>, x: T): (i: nat)
    requires x in xs
    ensures i < |xs| && xs[i] == x && x !in xs[..i]
  {
    var init := xs[..|xs| - 1];
    assert xs == init + [xs[|xs| - 1]];
    if x in init then
      var i := FirstIndex(init, x);
      assert xs[..i] == init[..i];
      i
    else |xs| - 1
  }

  lemma FirstIndexPrefix<T>(xs: seq<T>, n: nat, x: T)
    requires n <= |xs| && x in xs[..n]
    ensures FirstIndex(xs, x) == FirstIndex(xs[..n], x)
  {
    var i, j := FirstIndex(xs, x), FirstIndex(xs[..n], x);
    assert xs[..n][..j] == xs[..j];
  }

  /** No element occurs twice. */
  predicate Distinct<T(==)>(xs: seq<T>)
  {
    forall i, j :: 0 <= i < j < |xs| ==> xs[i] != xs[j]
  }

  // ---------------------------------------------------------------- keyed de-duplication

  /** The keys of the elements of `xs`; an element whose key is `None` contributes none. */
  function KeysOf<T, K(==)>(xs: seq<T>, key: T -> Option<K>): set<K>
  {
    if |xs| == 0 then {}
    else
      KeysOf(xs[..|xs| - 1], key)
      + (match key(xs[|xs| - 1]) case None => {} case Some(k) => {k})
  }

  lemma {:induction false} KeysOfHas<T, K>(xs: seq<T>, key: T -> Option<K>, i: nat)
    requires i < |xs| && key(xs[i]).Some?
    ensures key(xs[i]).value in KeysOf(xs, key)
    decreases |xs|
  {
    if i < |xs| - 1 {
      KeysOfHas(xs[..|xs| - 1], key, i);
    }
  }

  lemma {:induction false} KeysOfWitness<T, K>(xs: seq<T>, key: T -> Option<K>, k: K) returns (i: nat)
    requires k in KeysOf(xs, key)
    ensures i < |xs| && key(xs[i]) == Some(k)
    decreases |xs|
  {
    if key(xs[|xs| - 1]) == Some(k) {
      i := |xs| - 1;
    } else {
      i := KeysOfWitness(xs[..|xs| - 1], key, k);
    }
  }

  lemma KeysOfAppend<T, K>(xs: seq<T>, x: T, key: T -> Option<K>)
    ensures KeysOf(xs + [x], key)
         == KeysOf(xs, key) + (match key(x) case None => {} case Some(k) => {k})
  {
    assert (xs + [x])[..|xs|] == xs;
  }

  /** `x`, coming after `before`, is kept: it has no key, or a key none of `before` has. */
  predicate FirstOfKey<T, K(==)>(x: T, before: seq<T>, key: T -> Option<K>)
  {
    key(x).None? || key(x).value !in KeysOf(before, key)
  }

  /**
   * `drop_duplicates(subset=key, keep="first")`, except that elements whose
   * key is `None` are never dropped.
   */
  function DedupBy<T, K(==)>(xs: seq<T>, key: T -> Option<K>): (r: seq<T>)
    ensures |r| <= |xs|
    ensures KeysOf(r, key) == KeysOf(xs, key)
  {
    if |xs| == 0 then []
    else
      var init := xs[..|xs| - 1];
      var last := xs[|xs| - 1];
      var d := DedupBy(init, key);
      KeysOfAppend(d, last, key);
      KeysOfAppend(init, last, key);
      assert xs == init + [last];
      if FirstOfKey(last, init, key) then d + [last]
      else
        assert KeysOf(xs, key) == KeysOf(init, key);
        d
  }

  /** No two elements share a key. */
  predicate DistinctKeys<T, K(==)>(xs: seq<T>, key: T -> Option<K>)
  {
    forall i, j :: 0 <= i < j < |xs| && key(xs[i]).Some? ==> key(xs[i]) != key(xs[j])
  }

  /** After de-duplication no key is held by two elements. */
  lemma {:induction false} DedupByDistinctKeys<T, K>(xs: seq<T>, key: T -> Option<K>)
    ensures DistinctKeys(DedupBy(xs, key), key)
    decreases |xs|
  {
    if |xs| > 0 {
      var init, last := xs[..|xs| - 1], xs[|xs| - 1];
      var d := DedupBy(init, key);
      DedupByDistinctKeys(init, key);
      var r := DedupBy(xs, key);
      if FirstOfKey(last, init, key) {
        forall i | 0 <= i < |d| && key(r[i]).Some?
          ensures key(r[i]) != key(last)
        {
          KeysOfHas(d, key, i);
        }
      }
    }
  }

  /** Deleting elements keeps keys distinct. */
  lemma {:induction false} SubseqDistinctKeys<T, K>(a: seq<T>, b: seq<T>, key: T -> Option<K>)
    requires Subseq(a, b) && DistinctKeys(b, key)
    ensures DistinctKeys(a, key)
    decreases |b|
  {
    if |a| > 0 {
      var a', b' := a[..|a| - 1], b[..|b| - 1];
      assert DistinctKeys(b', key);
      if a[|a| - 1] == b[|b| - 1] {
        SubseqDistinctKeys(a', b', key);
        SubseqMembers(a', b');
        forall i | 0 <= i < |a'| && key(a[i]).Some?
          ensures key(a[i]) != key(a[|a| - 1])
        {
          assert a[i] == a'[i] && a'[i] in b';
          var j :| 0 <= j < |b'| && b'[j] == a'[i];
          assert b[j] == b'[j];
        }
      } else {
        SubseqDistinctKeys(a, b', key);
      }
    }
  }

  /** Elements replaced one for one by elements with the same keys keep keys distinct. */
  lemma DistinctKeysPointwise<T, U, K>(a: seq<T>, b: seq<U>, ka: T -> Option<K>, kb: U -> Option<K>)
    requires |a| == |b| && forall i :: 0 <= i < |a| ==> ka(a[i]) == kb(b[i])
    requires DistinctKeys(b, kb)
    ensures DistinctKeys(a, ka)
  {
  }

  /** Every element that is the first with its key, and every element without a key, survives. */
  lemma {:induction false} DedupByKeepsFirst<T, K>(xs: seq<T>, key: T -> Option<K>, i: nat)
    requires i < |xs| && FirstOfKey(xs[i], xs[..i], key)
    ensures xs[i] in DedupBy(xs, key)
    decreases |xs|
  {
    var init := xs[..|xs| - 1];
    if i < |xs| - 1 {
      assert init[..i] == xs[..i];
      DedupByKeepsFirst(init, key, i);
    } else {
      assert init == xs[..i];
    }
  }

  /** The elements without a key (those `unkeyed` picks out) come through de-duplication exactly, in order. */
  lemma {:induction false} DedupByKeepsUnkeyed<T(!new), K>(xs: seq<T>, key: T -> Option<K>, unkeyed: T -> bool)
    requires forall x :: unkeyed(x) == key(x).None?
    ensures Filter(DedupBy(xs, key), unkeyed) == Filter(xs, unkeyed)
    decreases |xs|
  {
    if |xs| > 0 {
      var init, last := xs[..|xs| - 1], xs[|xs| - 1];
      var d := DedupBy(init, key);
      DedupByKeepsUnkeyed(init, key, unkeyed);
      if FirstOfKey(last, init, key) {
        assert (d + [last])[..|d|] == d;
      } else {
        assert d + [] == d;
      }
    }
  }

  /** De-duplication only deletes elements. */
  lemma {:induction false} DedupBySubseq<T, K>(xs: seq<T>, key: T -> Option<K>)
    ensures Subseq(DedupBy(xs, key), xs)
    decreases |xs|
  {
    if |xs| > 0 {
      var init, last := xs[..|xs| - 1], xs[|xs| - 1];
      DedupBySubseq(init, key);
      assert xs == init + [last];
      if FirstOfKey(last, init, key) {
        SubseqExtend(DedupBy(init, key), init, last);
      } else {
        assert DedupBy(xs, key) == DedupBy(init, key);
        SubseqSkip(DedupBy(init, key), init, last);
      }
    }
  }

  /**
   * The loop form of `DedupBy`: walk the elements, remember the keys seen so
   * far in a set, and keep an element unless its key was seen.
   */
  method DropDuplicates<T, K(==)>(xs: seq<T>, key: T -> Option<K>) returns (r: seq<T>)
    ensures r == DedupBy(xs, key)
  {
    r := [];
    var seen: set<K> := {};
    for i := 0 to |xs|
      invariant r == DedupBy(xs[..i], key)
      invariant seen == KeysOf(xs[..i], key)
    {
      assert xs[..i + 1][..i] == xs[..i];
      match key(xs[i]) {
        case None =>
          r := r + [xs[i]];
        case Some(k) =>
          if k !in seen {
            r := r + [xs[i]];
            seen := seen + {k};
          }
      }
    }
    assert xs[..|xs|] == xs;
  }

  // ---------------------------------------------------------------- de-duplication by value

  /** Every element is its own key. */
  function Itself<T>(x: T): Option<T> { Some(x) }

  /** Keep the first occurrence of every value, in order of first occurrence. */
  function Dedup<T(==)>(xs: seq<T>): seq<T>
  {
    DedupBy(xs, Itself)
  }

  lemma {:induction false} KeysOfItself<T>(xs: seq<T>)
    ensures forall x :: x in KeysOf(xs, Itself) <==> x in xs
    decreases |xs|
  {
    if |xs| > 0 {
      KeysOfItself(xs[..|xs| - 1]);
      assert xs == xs[..|xs| - 1] + [xs[|xs| - 1]];
    }
  }

  /** The de-duplicated sequence holds no value twice. */
  lemma DedupDistinct<T>(xs: seq<T>)
    ensures Distinct(Dedup(xs))
  {
    DedupByDistinctKeys(xs, Itself);
  }

  /** De-duplication keeps exactly the values of the input. */
  lemma DedupSameValues<T>(xs: seq<T>)
    ensures forall x :: x in Dedup(xs) <==> x in xs
  {
    KeysOfItself(xs);
    KeysOfItself(Dedup(xs));
  }

  /** The elements of `d` occur in `xs`, and in the order of their first occurrence there. */
  predicate InFirstOccurrenceOrder<T(==)>(d: seq<T>, xs: seq<T>)
  {
    forall i, j :: 0 <= i < j < |d| ==> d[i] in xs && d[j] in xs && FirstIndex(xs, d[i]) < FirstIndex(xs, d[j])
  }

  lemma DedupOrderStep<T>(xs: seq<T>, i: nat, j: nat)
    requires 0 < |xs| && i < j < |Dedup(xs)|
    requires InFirstOccurrenceOrder(Dedup(xs[..|xs| - 1]), xs[..|xs| - 1])
    ensures Dedup(xs)[i] in xs && Dedup(xs)[j] in xs
    ensures FirstIndex(xs, Dedup(xs)[i]) < FirstIndex(xs, Dedup(xs)[j])
  {
    var init, last := xs[..|xs| - 1], xs[|xs| - 1];
    assert xs == init + [last];
    var d, r := Dedup(init), Dedup(xs);
    DedupSameValues(xs);
    DedupSameValues(init);
    KeysOfItself(init);
    assert r[i] == d[i] && r[i] in init;
    FirstIndexPrefix(xs, |xs| - 1, r[i]);
    if j < |d| {
      assert r[j] == d[j];
      FirstIndexPrefix(xs, |xs| - 1, r[j]);
    } else {
      assert r[j] == last && last !in init;
    }
  }

  lemma {:induction false} DedupFirstOccurrenceOrder<T>(xs: seq<T>)
    ensures InFirstOccurrenceOrder(Dedup(xs), xs)
    decreases |xs|
  {
    if |xs| > 0 {
      DedupFirstOccurrenceOrder(xs[..|xs| - 1]);
      forall i, j | 0 <= i < j < |Dedup(xs)|
        ensures Dedup(xs)[i] in xs && Dedup(xs)[j] in xs
        ensures FirstIndex(xs, Dedup(xs)[i]) < FirstIndex(xs, Dedup(xs)[j])
      {
        DedupOrderStep(xs, i, j);
      }
    }
  }


  /** A sequence without repeated values is its own de-duplication. */
  lemma {:induction false} DedupOfDistinct<T>(xs: seq<T>)
    requires Distinct(xs)
    ensures Dedup(xs) == xs
    decreases |xs|
  {
    if |xs| > 0 {
      var init, last := xs[..|xs| - 1], xs[|xs| - 1];
      DedupOfDistinct(init);
      KeysOfItself(init);
      assert last !in init;
      assert xs == init + [last];
    }
  }

  /** De-duplicating twice is de-duplicating once. */
  lemma DedupIdempotent<T>(xs: seq<T>)
    ensures Dedup(Dedup(xs)) == Dedup(xs)
  {
    DedupDistinct(xs);
    DedupOfDistinct(Dedup(xs));
  }

  /** Filtering with a test nothing passes leaves nothing. */
  lemma {:induction false} FilterNone<T(!new)>(xs: seq<T>, p: T -> bool)
    requires forall x :: x in xs ==> !p(x)
    ensures Filter(xs, p) == []
  {
    if |xs| > 0 {
      assert forall x :: x in xs[..|xs| - 1] ==> x in xs;
      FilterNone(xs[..|xs| - 1], p);
    }
  }

  /** Applying `f` to every element, in order. */
  function Map<T, U>(xs: seq<T>, f: T -> U): (r: seq<U>)
    ensures |r| == |xs| && forall i :: 0 <= i < |xs| ==> r[i] == f(xs[i])
  {
    seq(|xs|, i requires 0 <= i < |xs| => f(xs[i]))
  }

  lemma MapConcat<T, U>(a: seq<T>, b: seq<T>, f: T -> U)
    ensures Map(a + b, f) == Map(a, f) + Map(b, f)
  {
  }

  /** `f` applied to every element in order, failing as soon as one application fails. */
  function MapOutcome<T, U>(xs: seq<T>, f: T -> Outcome<U>): (r: Outcome<seq<U>>)
    ensures r.Returns? ==> |r.value| == |xs|
                           && forall i :: 0 <= i < |xs| ==> f(xs[i]) == Returns(r.value[i])
  {
    if |xs| == 0 then Returns([])
    else
      var init := xs[..|xs| - 1];
      match MapOutcome(init, f)
      case Raises => Raises
      case Returns(done) =>
        match f(xs[|xs| - 1])
        case Raises => Raises
        case Returns(y) =>
          assert forall i :: 0 <= i < |init| ==> xs[i] == init[i];
          Returns(done + [y])
  }

  /** A failure on a prefix is a failure of the whole. */
  lemma {:induction false} MapOutcomeRaises<T, U>(xs: seq<T>, n: nat, f: T -> Outcome<U>)
    requires n <= |xs| && MapOutcome(xs[..n], f).Raises?
    ensures MapOutcome(xs, f).Raises?
    decreases |xs|
  {
    if n < |xs| {
      assert xs[..|xs| - 1][..n] == xs[..n];
      MapOutcomeRaises(xs[..|xs| - 1], n, f);
    } else {
      assert xs[..n] == xs;
    }
  }

  /** The loop form of `MapOutcome`: apply `f` row by row and stop at the first failure. */
  method ApplyEach<T, U>(xs: seq<T>, f: T -> Outcome<U>) returns (r: Outcome<seq<U>>)
    ensures r == MapOutcome(xs, f)
  {
    var done: seq<U> := [];
    for i := 0 to |xs|
      invariant MapOutcome(xs[..i], f) == Returns(done)
    {
      assert xs[..i + 1][..i] == xs[..i];
      var y := f(xs[i]);
      if y.Raises? {
        MapOutcomeRaises(xs, i + 1, f);
        return Raises;
      }
      done := done + [y.value];
    }
    assert xs[..|xs|] == xs;
    r := Returns(done);
  }

  /** Filtering distributes over concatenation. */
  lemma {:induction false} FilterConcat<T(!new)>(xs: seq<T>, ys: seq<T>, p: T -> bool)
    ensures Filter(xs + ys, p) == Filter(xs, p) + Filter(ys, p)
    decreases |ys|
  {
    if |ys| == 0 {
      assert xs + ys == xs;
    } else {
      var init, last := ys[..|ys| - 1], ys[|ys| - 1];
      assert (xs + ys)[..|xs + ys| - 1] == xs + init;
      FilterConcat(xs, init, p);
    }
  }

  /** A filter that keeps everything `q` keeps, after `q`, is `q` alone. */
  lemma {:induction false} FilterTwice<T(!new)>(xs: seq<T>, p: T -> bool, q: T -> bool)
    requires forall x :: q(x) ==> p(x)
    ensures Filter(Filter(xs, q), p) == Filter(xs, q)
    decreases |xs|
  {
    if |xs| > 0 {
      var init, last := xs[..|xs| - 1], xs[|xs| - 1];
      FilterTwice(init, p, q);
      if q(last) {
        assert (Filter(init, q) + [last])[..|Filter(init, q)|] == Filter(init, q);
      }
    }
  }

  /** Boolean-mask selection `df[mask]`: a loop that keeps the rows satisfying `p`. */
  method Select<T(!new)>(xs: seq<T>, p: T -> bool) returns (r: seq<T>)
    ensures r == Filter(xs, p)
  {
    r := [];
    for i := 0 to |xs|
      invariant r == Filter(xs[..i], p)
    {
      assert xs[..i + 1][..i] == xs[..i];
      if p(xs[i]) {
        r := r + [xs[i]];
      }
    }
    assert xs[..|xs|] == xs;
  }

  // ---------------------------------------------------------------- concatenation

  /** `pd.concat` of a list of frames: the rows of each, one frame after the other. */
  function Flatten<T>(fs: seq<seq<T>>): seq<T>
  {
    if |fs| == 0 then [] else Flatten(fs[..|fs| - 1]) + fs[|fs| - 1]
  }

  /** Where the rows of frame `i` start in the concatenation. */
  function Offset<T>(fs: seq<seq<T>>, i: nat): nat
    requires i <= |fs|
  {
    |Flatten(fs[..i])|
  }

  /**
   * The `k`-th row of frame `i` sits at `Offset(fs, i) + k`, and all rows of
   * frame `i` come before those of any later frame.
   */
  lemma {:induction false} FlattenIndex<T>(fs: seq<seq<T>>, i: nat, k: nat)
    requires i < |fs| && k < |fs[i]|
    ensures Offset(fs, i) + k < |Flatten(fs)|
    ensures Flatten(fs)[Offset(fs, i) + k] == fs[i][k]
    decreases |fs|
  {
    var n := |fs| - 1;
    assert fs[..|fs|] == fs;
    if i < n {
      assert fs[..n][..i] == fs[..i];
      FlattenIndex(fs[..n], i, k);
    } else {
      assert fs[..i] == fs[..n];
    }
  }

  lemma {:induction false} OffsetOrder<T>(fs: seq<seq<T>>, i: nat, j: nat)
    requires i < j <= |fs|
    ensures Offset(fs, i) + |fs[i]| <= Offset(fs, j)
    decreases j
  {
    assert fs[..j][..j - 1] == fs[..j - 1];
    if i < j - 1 {
      OffsetOrder(fs, i, j - 1);
    }
  }
}
