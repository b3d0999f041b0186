/** Facts about sequences used as keyed rows and result lists. */
module Seqs {

  /** No element occurs twice: what a primary key guarantees of a table's rows. */
  ghost predicate NoDup<T>(xs: seq<T>)
  {
    forall i, j :: 0 <= i < j < |xs| ==> xs[i] != xs[j]
  }

  /** The set of elements of a sequence. */
  function Elems<T>(xs: seq<T>): set<T>
  {
    set x | x in xs
  }

  /** Appending keeps a sequence duplicate-free exactly when the new element is new. */
  lemma NoDupAppend<T>(xs: seq<T>, x: T)
    ensures NoDup(xs + [x]) <==> NoDup(xs) && x !in xs
  {
    var ys := xs + [x];
    assert forall i :: 0 <= i < |xs| ==> ys[i] == xs[i];
    if NoDup(ys) {
      forall i | 0 <= i < |xs| ensures xs[i] != x {
        assert ys[i] != ys[|xs|];
      }
    }
    if NoDup(xs) && x !in xs {
      forall i, j | 0 <= i < j < |ys| ensures ys[i] != ys[j] {
        if j < |xs| {
          assert ys[i] == xs[i] && ys[j] == xs[j];
        }
      }
    }
  }

  lemma EmptyWithoutMembers<T>(xs: seq<T>)
    ensures (forall x :: x !in xs) ==> xs == []
  {
    if xs != [] {
      assert xs[0] in xs;
    }
  }

  /**
   * The number of distinct elements equals the length exactly when there
   * are no duplicates; otherwise it is smaller.
   */
  lemma {:induction false} ElemsCard<T>(xs: seq<T>)
    ensures |Elems(xs)| <= |xs|
    ensures NoDup(xs) <==> |Elems(xs)| == |xs|
  {
    if xs == [] {
    } else {
      var init, last := xs[..|xs| - 1], xs[|xs| - 1];
      assert xs == init + [last];
      ElemsCard(init);
      NoDupAppend(init, last);
      if last in init {
        assert Elems(xs) == Elems(init);
      } else {
        assert Elems(xs) == Elems(init) + {last};
      }
    }
  }

  lemma ElemsAppend<T>(xs: seq<T>, x: T)
    ensures Elems(xs + [x]) == Elems(xs) + {x}
  {
    assert forall y :: y in xs + [x] <==> y in xs || y == x;
  }

  /** A subset that is as large as its superset is the superset. */
  lemma SubsetSameCard<T>(a: set<T>, b: set<T>)
    requires a <= b && |a| == |b|
    ensures a == b
  {
    assert a * b == a && a + b == b && a - b == {};
    assert |b - a| == 0;
    forall x | x in b ensures x in a {
      assert x !in b - a;
    }
  }

  lemma {:induction false} SubsetCard<T>(a: set<T>, b: set<T>)
    requires a <= b
    ensures |a| <= |b|
  {
    if a != {} {
      var x :| x in a;
      SubsetCard(a - {x}, b - {x});
    }
  }

  /** The first occurrences of the elements, in the order they first appear. */
  function Dedup<T(==)>(xs: seq<T>): (r: seq<T>)
    ensures Elems(r) == Elems(xs)
  {
    if xs == [] then []
    else
      var init := Dedup(xs[..|xs| - 1]);
      assert xs == xs[..|xs| - 1] + [xs[|xs| - 1]];
      ElemsAppend(xs[..|xs| - 1], xs[|xs| - 1]);
      ElemsAppend(init, xs[|xs| - 1]);
      if xs[|xs| - 1] in init then init else init + [xs[|xs| - 1]]
  }

  lemma {:induction false} DedupNoDup<T>(xs: seq<T>)
    ensures NoDup(Dedup(xs))
  {
    if xs != [] {
      DedupNoDup(xs[..|xs| - 1]);
      NoDupAppend(Dedup(xs[..|xs| - 1]), xs[|xs| - 1]);
    }
  }
}
