/** Small facts about sequences and sets used by both the seat inventory
    and the chat registry. */
module Seqs {

  /** No element occurs twice. */
  predicate Distinct<T(==)>(xs: seq<T>) {
    forall i, j | 0 <= i < j < |xs| :: xs[i] != xs[j]
  }

  /** The set of elements of a sequence. */
  function Elements<T>(xs: seq<T>): set<T> {
    set x | x in xs
  }

  /** Dropping the head of a sequence without repetitions leaves one
      without repetitions that no longer holds the head. */
  lemma DistinctTail<T>(xs: seq<T>)
    requires xs != [] && Distinct(xs)
    ensures Distinct(xs[1..]) && xs[0] !in xs[1..]
  {
    var tail := xs[1..];
    forall i, j | 0 <= i < j < |tail| ensures tail[i] != tail[j] {
      assert tail[i] == xs[i + 1] && tail[j] == xs[j + 1];
    }
    forall k | 0 <= k < |tail| ensures tail[k] != xs[0] {
      assert tail[k] == xs[k + 1];
    }
  }

  /** A sequence without repetitions has as many elements as its length. */
  lemma {:induction false} DistinctElementsSize<T>(xs: seq<T>)
    requires Distinct(xs)
    ensures |Elements(xs)| == |xs|
  {
    if xs != [] {
      DistinctTail(xs);
      DistinctElementsSize(xs[1..]);
      assert Elements(xs) == Elements(xs[1..]) + {xs[0]} by {
        assert xs == [xs[0]] + xs[1..];
      }
    }
  }

  /** Appending an element that is not yet present keeps a sequence
      without repetitions. */
  lemma DistinctAppend<T>(xs: seq<T>, x: T)
    requires Distinct(xs) && x !in xs
    ensures Distinct(xs + [x])
  {
    var ys := xs + [x];
    forall i, j | 0 <= i < j < |ys| ensures ys[i] != ys[j] {
      if j == |xs| {
        assert ys[i] == xs[i];
      } else {
        assert ys[i] == xs[i] && ys[j] == xs[j];
      }
    }
  }

  /** A subset is no larger, and the difference makes up the rest. */
  lemma SubsetSize<T>(a: set<T>, b: set<T>)
    requires a <= b
    ensures |a| <= |b| && |b - a| == |b| - |a|
  {
    assert b == a + (b - a);
    assert a !! (b - a);
  }

  /** Removing every occurrence of `x`. */
  function Without<T(==)>(xs: seq<T>, x: T): seq<T> {
    if xs == [] then []
    else (if xs[0] == x then [] else [xs[0]]) + Without(xs[1..], x)
  }

  /** Removal keeps the other elements, in order and without repetitions. */
  lemma {:induction false} WithoutSpec<T>(xs: seq<T>, x: T)
    ensures forall y :: y in Without(xs, x) <==> y in xs && y != x
    ensures Distinct(xs) ==> Distinct(Without(xs, x))
  {
    if xs != [] {
      WithoutSpec(xs[1..], x);
      assert xs == [xs[0]] + xs[1..];
      if Distinct(xs) {
        DistinctTail(xs);
        var rest := Without(xs[1..], x);
        if xs[0] != x {
          PrependDistinct(xs[0], rest);
        }
      }
    }
  }

  /** Putting an absent element in front keeps a sequence without
      repetitions. */
  lemma PrependDistinct<T>(x: T, xs: seq<T>)
    requires Distinct(xs) && x !in xs
    ensures Distinct([x] + xs)
  {
    var ys := [x] + xs;
    forall i, j | 0 <= i < j < |ys| ensures ys[i] != ys[j] {
      assert ys[j] == xs[j - 1];
      if i > 0 {
        assert ys[i] == xs[i - 1];
      }
    }
  }

  /** The elements of `xs` that are in `keep`, in their order. */
  function Keep<T>(xs: seq<T>, keep: set<T>): (r: seq<T>)
    ensures |r| <= |xs|
    ensures forall y | y in r :: y in xs && y in keep
    ensures forall y | y in xs && y in keep :: y in r
  {
    if xs == [] then []
    else
      assert forall y | y in xs :: y == xs[0] || y in xs[1..];
      (if xs[0] in keep then [xs[0]] else []) + Keep(xs[1..], keep)
  }

  /** Keeping a superset of the elements changes nothing. */
  lemma {:induction false} KeepAll<T>(xs: seq<T>, keep: set<T>)
    requires forall i | 0 <= i < |xs| :: xs[i] in keep
    ensures Keep(xs, keep) == xs
  {
    if xs != [] {
      KeepAll(xs[1..], keep);
      assert xs == [xs[0]] + xs[1..];
    }
  }

  /** Keeping twice is keeping once with the smaller set. */
  lemma {:induction false} KeepTwice<T>(xs: seq<T>, wide: set<T>, narrow: set<T>)
    requires narrow <= wide
    ensures Keep(Keep(xs, wide), narrow) == Keep(xs, narrow)
  {
    if xs != [] {
      KeepTwice(xs[1..], wide, narrow);
      var head := if xs[0] in wide then [xs[0]] else [];
      KeepAppend(head, Keep(xs[1..], wide), narrow);
      if xs[0] in wide {
        assert head[1..] == [];
        assert Keep(head, narrow) == (if xs[0] in narrow then [xs[0]] else []) + Keep([], narrow);
      }
    }
  }

  /** An element that is not kept may be removed beforehand. */
  lemma {:induction false} KeepWithout<T>(xs: seq<T>, x: T, keep: set<T>)
    requires x !in keep
    ensures Keep(Without(xs, x), keep) == Keep(xs, keep)
  {
    if xs != [] {
      KeepWithout(xs[1..], x, keep);
      var head := if xs[0] == x then [] else [xs[0]];
      KeepAppend(head, Without(xs[1..], x), keep);
      if xs[0] != x {
        assert head[1..] == [];
        assert Keep(head, keep) == (if xs[0] in keep then [xs[0]] else []) + Keep([], keep);
      }
    }
  }

  /** Keeping distributes over concatenation. */
  lemma {:induction false} KeepAppend<T>(a: seq<T>, b: seq<T>, keep: set<T>)
    ensures Keep(a + b, keep) == Keep(a, keep) + Keep(b, keep)
  {
    if a == [] {
      assert a + b == b;
    } else {
      KeepAppend(a[1..], b, keep);
      assert (a + b)[0] == a[0] && (a + b)[1..] == a[1..] + b;
      var head := if a[0] in keep then [a[0]] else [];
      AppendAssoc(head, Keep(a[1..], keep), Keep(b, keep));
    }
  }

  /** An element appended at the end and not kept leaves no trace. */
  lemma KeepDropLast<T>(xs: seq<T>, x: T, keep: set<T>)
    requires x !in keep
    ensures Keep(xs + [x], keep) == Keep(xs, keep)
  {
    KeepAppend(xs, [x], keep);
    assert [x][1..] == [];
    assert Keep([x], keep) == [] + Keep([], keep);
  }

  /** Concatenation is associative. */
  lemma AppendAssoc<T>(x: seq<T>, y: seq<T>, z: seq<T>)
    ensures x + (y + z) == (x + y) + z
  {
  }
}
