/** Python's `list(sorted(set(xs)))` on integers: the canonical, strictly
    increasing list holding the same values as `xs`. */
module SortedLists {

  predicate StrictlyIncreasing(xs: seq<int>)
  {
    forall i, j :: 0 <= i < j < |xs| ==> xs[i] < xs[j]
  }

  function Elems(xs: seq<int>): set<int>
  {
    set x | x in xs
  }

  /** Adds `v` to a strictly increasing list, keeping it so. */
  function Insert(xs: seq<int>, v: int): (r: seq<int>)
    requires StrictlyIncreasing(xs)
    ensures StrictlyIncreasing(r)
    ensures Elems(r) == Elems(xs) + {v}
  {
    if |xs| == 0 then [v]
    else if v < xs[0] then [v] + xs
    else if v == xs[0] then xs
    else
      var rest := Insert(xs[1..], v);
      assert Elems(xs) == {xs[0]} + Elems(xs[1..]);
      assert forall k :: 0 <= k < |rest| ==> xs[0] < rest[k] by {
        forall k | 0 <= k < |rest| ensures xs[0] < rest[k] {
          assert rest[k] in Elems(xs[1..]) + {v};
        }
      }
      assert Elems([xs[0]] + rest) == {xs[0]} + Elems(rest);
      [xs[0]] + rest
  }

  /** `sorted(set(xs))`. */
  function Canonical(xs: seq<int>): (r: seq<int>)
    ensures StrictlyIncreasing(r)
    ensures Elems(r) == Elems(xs)
  {
    if |xs| == 0 then []
    else
      assert Elems(xs) == Elems(xs[..|xs| - 1]) + {xs[|xs| - 1]} by {
        assert xs == xs[..|xs| - 1] + [xs[|xs| - 1]];
      }
      Insert(Canonical(xs[..|xs| - 1]), xs[|xs| - 1])
  }

  lemma EmptyIff(xs: seq<int>)
    ensures |xs| == 0 <==> Elems(xs) == {}
  {
    if |xs| != 0 {
      assert xs[0] in Elems(xs);
    }
  }

  /** A strictly increasing list is determined by its values. */
  lemma {:induction false} Unique(a: seq<int>, b: seq<int>)
    requires StrictlyIncreasing(a) && StrictlyIncreasing(b)
    requires Elems(a) == Elems(b)
    ensures a == b
    decreases |a|
  {
    EmptyIff(a);
    EmptyIff(b);
    if |a| != 0 && |b| != 0 {
      // the heads are both the least value of the common set
      assert a[0] in Elems(b) && b[0] in Elems(a);
      assert a[0] == b[0];
      assert Elems(a[1..]) == Elems(a) - {a[0]} by {
        assert a == [a[0]] + a[1..];
        assert a[0] !in a[1..];
      }
      assert Elems(b[1..]) == Elems(b) - {b[0]} by {
        assert b == [b[0]] + b[1..];
        assert b[0] !in b[1..];
      }
      Unique(a[1..], b[1..]);
      assert a == [a[0]] + a[1..] && b == [b[0]] + b[1..];
    }
  }

  /** A strictly increasing list is its own canonical form. */
  lemma CanonicalFixesSorted(xs: seq<int>)
    requires StrictlyIncreasing(xs)
    ensures Canonical(xs) == xs
  {
    Unique(Canonical(xs), xs);
  }
}
