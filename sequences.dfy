/**
 * The list helpers of `seantis/reservation/utils.py`: `flatten` of an
 * irregularly nested list, `pairs` of a flattened list and `pairwise` over
 * consecutive elements. Strings are leaves, never nested lists.
 */
module ListHelpers {

  /** An element of an irregularly nested list: a leaf or a nested list. */
  datatype Nested<T> = Leaf(value: T) | Nest(items: seq<Nested<T>>)

  /** The number of leaves under a nested element. */
  function LeafCount<T>(n: Nested<T>): nat
    decreases n, 0
  {
    match n
    case Leaf(_) => 1
    case Nest(items) => LeafCountAll(items)
  }

  function LeafCountAll<T>(l: seq<Nested<T>>): nat
    decreases l, 1
  {
    if l == [] then 0 else LeafCount(l[0]) + LeafCountAll(l[1..])
  }

  /** `flatten(l)`: the leaves, depth first, left to right. */
  function Flatten<T>(l: seq<Nested<T>>): (r: seq<T>)
    ensures |r| == LeafCountAll(l)
    decreases l, 1
  {
    if l == [] then [] else FlattenOne(l[0]) + Flatten(l[1..])
  }

  function FlattenOne<T>(n: Nested<T>): (r: seq<T>)
    ensures |r| == LeafCount(n)
    decreases n, 0
  {
    match n
    case Leaf(x) => [x]
    case Nest(items) => Flatten(items)
  }

  /** Every element of a sequence as a leaf. */
  function Leaves<T>(s: seq<T>): (l: seq<Nested<T>>)
    ensures |l| == |s| && forall i :: 0 <= i < |s| ==> l[i] == Leaf(s[i])
  {
    seq(|s|, i requires 0 <= i < |s| => Leaf(s[i]))
  }

  /** Flattening a list of leaves gives the leaves back. */
  lemma {:induction false} FlattenLeaves<T>(s: seq<T>)
    ensures Flatten(Leaves(s)) == s
  {
    if s != [] {
      assert Leaves(s)[1..] == Leaves(s[1..]);
      FlattenLeaves(s[1..]);
    }
  }

  /** Flattening distributes over concatenation. */
  lemma {:induction false} FlattenConcat<T>(a: seq<Nested<T>>, b: seq<Nested<T>>)
    ensures Flatten(a + b) == Flatten(a) + Flatten(b)
  {
    if a == [] {
      assert a + b == b;
    } else {
      assert (a + b)[0] == a[0] && (a + b)[1..] == a[1..] + b;
      FlattenConcat(a[1..], b);
    }
  }

  /** Flattening an already flat result changes nothing. */
  lemma FlattenIdempotent<T>(l: seq<Nested<T>>)
    ensures Flatten(Leaves(Flatten(l))) == Flatten(l)
  {
    FlattenLeaves(Flatten(l));
  }

  /**
   * Depth first, left to right: a nested list anywhere in `l` is replaced by
   * its own flattening, in place.
   */
  lemma FlattenSplice<T>(a: seq<Nested<T>>, x: seq<Nested<T>>, b: seq<Nested<T>>)
    ensures Flatten(a + [Nest(x)] + b) == Flatten(a) + Flatten(x) + Flatten(b)
  {
    FlattenConcat(a + [Nest(x)], b);
    FlattenConcat(a, [Nest(x)]);
    assert [Nest(x)][1..] == [];
  }

  /** One level of nesting is removed: flattening `[[a, b], c]` gives `[a, b, c]`. */
  lemma FlattenNested<T>(a: T, b: T, c: T)
    ensures Flatten([Nest([Leaf(a), Leaf(b)]), Leaf(c)]) == [a, b, c]
  {
    var inner := [Leaf(a), Leaf(b)];
    assert inner[1..] == [Leaf(b)] && inner[1..][1..] == [];
    assert Flatten([Leaf(b)]) == [b];
    assert Flatten(inner) == [a, b];
    var outer := [Nest(inner), Leaf(c)];
    assert outer[1..] == [Leaf(c)] && outer[1..][1..] == [];
    assert Flatten([Leaf(c)]) == [c];
  }

  /**
   * `zip(l[0::2], l[1::2])`: consecutive, non-overlapping pairs; an odd last
   * element is dropped.
   */
  function PairUp<T>(s: seq<T>): (r: seq<(T, T)>)
    ensures |r| == |s| / 2
    ensures forall i :: 0 <= i < |r| ==> r[i] == (s[2 * i], s[2 * i + 1])
  {
    if |s| < 2 then []
    else
      var rest := PairUp(s[2..]);
      assert forall i :: 0 <= i < |rest| ==> s[2..][2 * i] == s[2 * (i + 1)] && s[2..][2 * i + 1] == s[2 * (i + 1) + 1];
      [(s[0], s[1])] + rest
  }

  /** `pairs(l)`: the pairs of the flattened list. */
  function Pairs<T>(l: seq<Nested<T>>): seq<(T, T)> {
    PairUp(Flatten(l))
  }

  /** The pairs laid out flat again. */
  function Unpair<T>(p: seq<(T, T)>): (s: seq<T>)
    ensures |s| == 2 * |p|
  {
    if p == [] then [] else [p[0].0, p[0].1] + Unpair(p[1..])
  }

  /** Pairing and laying flat again gives the list back, minus an odd last element. */
  lemma {:induction false} UnpairPairUp<T>(s: seq<T>)
    ensures Unpair(PairUp(s)) == s[..2 * (|s| / 2)]
  {
    if |s| >= 2 {
      UnpairPairUp(s[2..]);
      assert PairUp(s)[1..] == PairUp(s[2..]);
      assert s[..2 * (|s| / 2)] == [s[0], s[1]] + s[2..][..2 * (|s[2..]| / 2)];
    }
  }

  /** Laying pairs flat and pairing them again gives the same pairs. */
  lemma {:induction false} PairUpUnpair<T>(p: seq<(T, T)>)
    ensures PairUp(Unpair(p)) == p
  {
    if p != [] {
      PairUpUnpair(p[1..]);
      var s := Unpair(p);
      assert s[2..] == Unpair(p[1..]);
    }
  }

  /** A flat list laid out from pairs is paired back into them: `(a,b,c,d)` gives `((a,b),(c,d))`. */
  lemma PairsOfPairs<T>(p: seq<(T, T)>)
    ensures Pairs(Leaves(Unpair(p))) == p
  {
    FlattenLeaves(Unpair(p));
    PairUpUnpair(p);
  }

  /** Each pair as a nested two-item list: `((a,b),(c,d))`. */
  function NestPairs<T>(p: seq<(T, T)>): (l: seq<Nested<T>>)
    ensures |l| == |p| && forall i :: 0 <= i < |p| ==> l[i] == Nest([Leaf(p[i].0), Leaf(p[i].1)])
  {
    seq(|p|, i requires 0 <= i < |p| => Nest([Leaf(p[i].0), Leaf(p[i].1)]))
  }

  lemma {:induction false} FlattenNestPairs<T>(p: seq<(T, T)>)
    ensures Flatten(NestPairs(p)) == Unpair(p)
  {
    if p != [] {
      var items := [Leaf(p[0].0), Leaf(p[0].1)];
      assert Flatten(items) == [p[0].0, p[0].1] by {
        var tail: seq<Nested<T>> := [Leaf(p[0].1)];
        assert items[1..] == tail && tail[1..] == [];
        assert Flatten(tail) == [p[0].1] + Flatten(tail[1..]);
        assert Flatten(items) == [p[0].0] + Flatten(tail);
      }
      assert NestPairs(p)[1..] == NestPairs(p[1..]);
      FlattenNestPairs(p[1..]);
    }
  }

  /** Pairs that are already nested come back as they are: `((a,b),(c,d))` gives `((a,b),(c,d))`. */
  lemma PairsOfNestedPairs<T>(p: seq<(T, T)>)
    ensures Pairs(NestPairs(p)) == p
  {
    FlattenNestPairs(p);
    PairUpUnpair(p);
  }

  /** `pairwise(s)`: `(s0, s1), (s1, s2), ...`, overlapping. */
  function Pairwise<T>(s: seq<T>): (r: seq<(T, T)>)
    ensures |r| == if |s| == 0 then 0 else |s| - 1
  {
    if |s| < 2 then [] else [(s[0], s[1])] + Pairwise(s[1..])
  }

  /** The first components are all but the last element, the second all but the first. */
  lemma {:induction false} PairwiseComponents<T>(s: seq<T>)
    ensures forall i :: 0 <= i < |Pairwise(s)| ==> Pairwise(s)[i] == (s[i], s[i + 1])
  {
    if |s| >= 2 {
      PairwiseComponents(s[1..]);
      var r := Pairwise(s);
      forall i | 0 <= i < |r|
        ensures r[i] == (s[i], s[i + 1])
      {
        if i > 0 {
          assert r[i] == Pairwise(s[1..])[i - 1];
        }
      }
    }
  }
}
