/** Sequence facts shared by the model: duplicate freedom, element sets,
    products of natural numbers and the Cartesian product of sequences. */
module Collections {
  import opened Wrappers

  /** No element occurs twice in `s`. */
  ghost predicate NoDup<T>(s: seq<T>) {
    forall i, j | 0 <= i < j < |s| :: s[i] != s[j]
  }

  /** The set of elements of `s`. */
  ghost function Elems<T>(s: seq<T>): set<T> {
    set x | x in s
  }

  /** A duplicate-free sequence has as many distinct elements as entries. */
  lemma {:induction false} NoDupCard<T>(s: seq<T>)
    requires NoDup(s)
    ensures |Elems(s)| == |s|
  {
    if s != [] {
      var t := s[..|s| - 1];
      var x := s[|s| - 1];
      assert s == t + [x];
      assert NoDup(t);
      NoDupCard(t);
      assert Elems(s) == Elems(t) + {x};
      assert x !in Elems(t);
    }
  }

  /** Two duplicate-free sequences over the same elements have the same length. */
  lemma SameElemsSameLength<T>(a: seq<T>, b: seq<T>)
    requires NoDup(a) && NoDup(b) && Elems(a) == Elems(b)
    ensures |a| == |b|
  {
    NoDupCard(a);
    NoDupCard(b);
  }

  /** Concatenating two duplicate-free, disjoint sequences keeps duplicate freedom. */
  lemma NoDupConcat<T>(a: seq<T>, b: seq<T>)
    requires NoDup(a) && NoDup(b)
    requires forall x | x in a :: x !in b
    ensures NoDup(a + b)
  {
    forall i, j | 0 <= i < j < |a + b|
      ensures (a + b)[i] != (a + b)[j]
    {
      if j < |a| {
      } else if i >= |a| {
        assert (a + b)[i] == b[i - |a|] && (a + b)[j] == b[j - |a|];
      } else {
        assert (a + b)[i] in a && (a + b)[j] in b;
      }
    }
  }

  /** A proper growth of `a` inside `g` leaves strictly fewer elements of `g` outside. */
  lemma {:induction false} FewerOutside<T>(g: set<T>, a: set<T>, b: set<T>, x: T)
    requires a <= b && x in b && x !in a && x in g
    ensures |g - b| < |g - a|
  {
    assert g - b <= (g - a) - {x};
    assert (g - a) - {x} < g - a;
    SubsetCard(g - b, (g - a) - {x});
    ProperSubsetCard((g - a) - {x}, g - a, x);
  }

  lemma {:induction false} SubsetCard<T>(a: set<T>, b: set<T>)
    requires a <= b
    ensures |a| <= |b|
  {
    assert b == a + (b - a);
  }

  lemma {:induction false} ProperSubsetCard<T>(a: set<T>, b: set<T>, x: T)
    requires a == b - {x} && x in b
    ensures |a| == |b| - 1
  {
    assert b == a + {x};
  }

  /** The product of a sequence of natural numbers. */
  function Prod(ns: seq<nat>): nat {
    if ns == [] then 1 else ns[0] * Prod(ns[1..])
  }

  /** The lengths of the sequences in `axes`, in order. */
  function Lengths<T>(axes: seq<seq<T>>): (r: seq<nat>)
    ensures |r| == |axes|
    ensures forall i | 0 <= i < |axes| :: r[i] == |axes[i]|
  {
    if axes == [] then [] else [|axes[0]|] + Lengths(axes[1..])
  }

  /** `x` put in front of every tail. */
  function Cons<T>(x: T, tails: seq<seq<T>>): seq<seq<T>> {
    seq(|tails|, i requires 0 <= i < |tails| => [x] + tails[i])
  }

  /** Every element of `xs` put in front of every tail; outer loop over `xs`. */
  function Spread<T>(xs: seq<T>, tails: seq<seq<T>>): seq<seq<T>> {
    if xs == [] then [] else Cons(xs[0], tails) + Spread(xs[1..], tails)
  }

  /** The Cartesian product of `axes`: every tuple taking its i-th entry from `axes[i]`. */
  function Product<T>(axes: seq<seq<T>>): seq<seq<T>> {
    if axes == [] then [[]] else Spread(axes[0], Product(axes[1..]))
  }

  lemma {:induction false} SpreadLength<T>(xs: seq<T>, tails: seq<seq<T>>)
    ensures |Spread(xs, tails)| == |xs| * |tails|
  {
    if xs != [] {
      SpreadLength(xs[1..], tails);
      calc {
        |Spread(xs, tails)|;
        |tails| + (|xs| - 1) * |tails|;
        |xs| * |tails|;
      }
    }
  }

  /** The product has as many tuples as the product of the axis lengths. */
  lemma {:induction false} ProductLength<T>(axes: seq<seq<T>>)
    ensures |Product(axes)| == Prod(Lengths(axes))
  {
    if axes != [] {
      ProductLength(axes[1..]);
      SpreadLength(axes[0], Product(axes[1..]));
      assert Lengths(axes)[1..] == Lengths(axes[1..]);
    }
  }

  lemma ConsMember<T>(x: T, tails: seq<seq<T>>, v: seq<T>)
    ensures v in Cons(x, tails) <==> |v| >= 1 && v[0] == x && v[1..] in tails
  {
    if |v| >= 1 && v[0] == x && v[1..] in tails {
      var i :| 0 <= i < |tails| && tails[i] == v[1..];
      assert Cons(x, tails)[i] == v;
    }
  }

  lemma {:induction false} SpreadMember<T>(xs: seq<T>, tails: seq<seq<T>>, v: seq<T>)
    ensures v in Spread(xs, tails) <==> |v| >= 1 && v[0] in xs && v[1..] in tails
  {
    if xs != [] {
      ConsMember(xs[0], tails, v);
      SpreadMember(xs[1..], tails, v);
      assert xs == [xs[0]] + xs[1..];
    }
  }

  /** A tuple is in the product exactly when each entry comes from its axis. */
  lemma {:induction false} ProductMember<T>(axes: seq<seq<T>>, v: seq<T>)
    ensures v in Product(axes) <==>
            |v| == |axes| && forall i | 0 <= i < |v| :: v[i] in axes[i]
  {
    if axes == [] {
    } else {
      SpreadMember(axes[0], Product(axes[1..]), v);
      if |v| >= 1 {
        ProductMember(axes[1..], v[1..]);
        if |v| == |axes| && forall i | 0 <= i < |v| :: v[i] in axes[i] {
          assert forall i | 0 <= i < |v[1..]| :: v[1..][i] in axes[1..][i] by {
            forall i | 0 <= i < |v[1..]| ensures v[1..][i] in axes[1..][i] {
              assert v[1..][i] == v[i + 1];
            }
          }
        }
        if v in Product(axes) {
          forall i | 0 <= i < |v| ensures v[i] in axes[i] {
            if i > 0 {
              assert v[i] == v[1..][i - 1];
            }
          }
        }
      }
    }
  }

  lemma ConsNoDup<T>(x: T, tails: seq<seq<T>>)
    requires NoDup(tails)
    ensures NoDup(Cons(x, tails))
  {
    forall i, j | 0 <= i < j < |tails|
      ensures Cons(x, tails)[i] != Cons(x, tails)[j]
    {
      assert Cons(x, tails)[i][1..] == tails[i];
      assert Cons(x, tails)[j][1..] == tails[j];
    }
  }

  lemma {:induction false} SpreadNoDup<T>(xs: seq<T>, tails: seq<seq<T>>)
    requires NoDup(xs) && NoDup(tails)
    ensures NoDup(Spread(xs, tails))
  {
    if xs != [] {
      assert NoDup(xs[1..]) by {
        forall i, j | 0 <= i < j < |xs[1..]| ensures xs[1..][i] != xs[1..][j] {
          assert xs[1..][i] == xs[i + 1] && xs[1..][j] == xs[j + 1];
        }
      }
      SpreadNoDup(xs[1..], tails);
      ConsNoDup(xs[0], tails);
      forall v | v in Cons(xs[0], tails)
        ensures v !in Spread(xs[1..], tails)
      {
        ConsMember(xs[0], tails, v);
        SpreadMember(xs[1..], tails, v);
        assert xs[0] !in xs[1..] by {
          forall k | 0 <= k < |xs[1..]| ensures xs[1..][k] != xs[0] {
            assert xs[1..][k] == xs[k + 1];
          }
        }
      }
      NoDupConcat(Cons(xs[0], tails), Spread(xs[1..], tails));
    }
  }

  /** The product of duplicate-free axes has no duplicate tuple. */
  lemma {:induction false} ProductNoDup<T>(axes: seq<seq<T>>)
    requires forall i | 0 <= i < |axes| :: NoDup(axes[i])
    ensures NoDup(Product(axes))
  {
    if axes != [] {
      ProductNoDup(axes[1..]);
      SpreadNoDup(axes[0], Product(axes[1..]));
    }
  }

  /** What is in a prefix is in the whole sequence. */
  lemma PrefixMember<T>(a: seq<T>, b: seq<T>)
    requires a <= b
    ensures forall x | x in a :: x in b
  {
    forall x | x in a ensures x in b {
      var k :| 0 <= k < |a| && a[k] == x;
      assert b[k] == x;
    }
  }

  /** The sum of a sequence of natural numbers. */
  function Sum(ns: seq<nat>): nat {
    if ns == [] then 0 else ns[0] + Sum(ns[1..])
  }

  /** Lowering one entry by one lowers the sum by one. */
  lemma {:induction false} SumDecrement(ns: seq<nat>, i: nat)
    requires i < |ns| && ns[i] > 0
    ensures Sum(ns[i := ns[i] - 1]) == Sum(ns) - 1
  {
    if i > 0 {
      SumDecrement(ns[1..], i - 1);
      assert ns[i := ns[i] - 1][1..] == ns[1..][i - 1 := ns[i] - 1];
    }
  }

  /** The entries of `s` that satisfy `f`, in order. */
  function Filter<T(!new)>(f: T -> bool, s: seq<T>): (r: seq<T>)
    ensures |r| <= |s|
    ensures forall x :: x in r <==> x in s && f(x)
  {
    if s == [] then []
    else
      var init := s[..|s| - 1];
      assert s == init + [s[|s| - 1]];
      Filter(f, init) + if f(s[|s| - 1]) then [s[|s| - 1]] else []
  }

  /** Filtering distributes over concatenation. */
  lemma {:induction false} FilterConcat<T(!new)>(f: T -> bool, a: seq<T>, b: seq<T>)
    ensures Filter(f, a + b) == Filter(f, a) + Filter(f, b)
    decreases |b|
  {
    if b != [] {
      var init := b[..|b| - 1];
      var x := b[|b| - 1];
      assert (a + b)[..|a + b| - 1] == a + init;
      assert (a + b)[|a + b| - 1] == x;
      FilterConcat(f, a, init);
      assert Filter(f, a + b) == Filter(f, a + init) + (if f(x) then [x] else []);
      assert Filter(f, b) == Filter(f, init) + (if f(x) then [x] else []);
    } else {
      assert a + b == a;
    }
  }

  /** Filtering keeps a sequence whose every entry passes and empties one whose
      every entry fails. */
  lemma FilterAll<T(!new)>(f: T -> bool, s: seq<T>)
    ensures (forall k | 0 <= k < |s| :: f(s[k])) ==> Filter(f, s) == s
    ensures (forall k | 0 <= k < |s| :: !f(s[k])) ==> Filter(f, s) == []
  {
    if forall k | 0 <= k < |s| :: f(s[k]) {
      FilterKeepsAll(f, s);
    }
    if forall k | 0 <= k < |s| :: !f(s[k]) {
      FilterDropsAll(f, s);
    }
  }

  lemma {:induction false} FilterKeepsAll<T(!new)>(f: T -> bool, s: seq<T>)
    requires forall k | 0 <= k < |s| :: f(s[k])
    ensures Filter(f, s) == s
  {
    if s != [] {
      var init, last := s[..|s| - 1], s[|s| - 1];
      assert s == init + [last];
      forall k | 0 <= k < |init| ensures f(init[k]) {
        assert init[k] == s[k];
      }
      FilterKeepsAll(f, init);
      FilterSnoc(f, init, last);
    }
  }

  /** Filtering one more entry appends it when it passes. */
  lemma FilterSnoc<T(!new)>(f: T -> bool, init: seq<T>, last: T)
    ensures Filter(f, init + [last]) == Filter(f, init) + if f(last) then [last] else []
  {
    assert (init + [last])[..|init|] == init;
  }

  lemma {:induction false} FilterDropsAll<T(!new)>(f: T -> bool, s: seq<T>)
    requires forall k | 0 <= k < |s| :: !f(s[k])
    ensures Filter(f, s) == []
  {
    if s != [] {
      var init := s[..|s| - 1];
      assert forall k | 0 <= k < |init| :: !f(init[k]) by {
        forall k | 0 <= k < |init| ensures !f(init[k]) {
          assert init[k] == s[k];
        }
      }
      FilterDropsAll(f, init);
      assert Filter(f, s) == Filter(f, init);
    }
  }

  /** The sequences of `ss` one after another. */
  function Concat<T(!new)>(ss: seq<seq<T>>): (r: seq<T>)
    ensures forall x :: x in r <==> exists k :: 0 <= k < |ss| && x in ss[k]
  {
    if ss == [] then []
    else
      var init := ss[..|ss| - 1];
      assert forall k | 0 <= k < |init| :: init[k] == ss[k];
      Concat(init) + ss[|ss| - 1]
  }

  /** `f` gives a value for every entry of `xs`. */
  predicate AllSome<A, B>(f: A -> Option<B>, xs: seq<A>) {
    forall k | 0 <= k < |xs| :: f(xs[k]).Some?
  }

  /** The values `f` gives for the entries of `xs` before the first one it gives
      none for. */
  function MapWhileSome<A, B>(f: A -> Option<B>, xs: seq<A>): seq<B> {
    if xs == [] then []
    else
      match f(xs[0])
      case None => []
      case Some(y) => [y] + MapWhileSome(f, xs[1..])
  }

  lemma {:induction false} MapWhileSomeAppend<A, B>(f: A -> Option<B>, xs: seq<A>, x: A)
    requires AllSome(f, xs) && f(x).Some?
    ensures MapWhileSome(f, xs + [x]) == MapWhileSome(f, xs) + [f(x).value]
  {
    if xs != [] {
      assert (xs + [x])[1..] == xs[1..] + [x];
      assert AllSome(f, xs[1..]) by {
        forall k | 0 <= k < |xs[1..]| ensures f(xs[1..][k]).Some? {
          assert xs[1..][k] == xs[k + 1];
        }
      }
      MapWhileSomeAppend(f, xs[1..], x);
    }
  }

  lemma {:induction false} MapWhileSomeStops<A, B>(f: A -> Option<B>, xs: seq<A>, i: nat)
    requires i < |xs| && AllSome(f, xs[..i]) && f(xs[i]).None?
    ensures MapWhileSome(f, xs) == MapWhileSome(f, xs[..i])
  {
    if i > 0 {
      assert xs[..i][0] == xs[0];
      assert xs[..i][1..] == xs[1..][..i - 1];
      ghost var rest := xs[1..][..i - 1];
      assert AllSome(f, rest) by {
        forall k | 0 <= k < |rest| ensures f(rest[k]).Some? {
          assert rest[k] == xs[..i][k + 1];
        }
      }
      MapWhileSomeStops(f, xs[1..], i - 1);
    }
  }

  /** Every value produced comes from an entry of `xs`. */
  lemma {:induction false} MapWhileSomeFrom<A, B>(f: A -> Option<B>, xs: seq<A>)
    ensures forall k | 0 <= k < |MapWhileSome(f, xs)| ::
              exists j | 0 <= j < |xs| :: f(xs[j]) == Some(MapWhileSome(f, xs)[k])
  {
    if xs != [] && f(xs[0]).Some? {
      MapWhileSomeFrom(f, xs[1..]);
      var r := MapWhileSome(f, xs);
      assert r == [f(xs[0]).value] + MapWhileSome(f, xs[1..]);
      forall k | 0 <= k < |r| ensures exists j | 0 <= j < |xs| :: f(xs[j]) == Some(r[k]) {
        if k == 0 {
          assert f(xs[0]) == Some(r[0]);
        } else {
          var j :| 0 <= j < |xs[1..]| && f(xs[1..][j]) == Some(MapWhileSome(f, xs[1..])[k - 1]);
          assert xs[j + 1] == xs[1..][j];
          assert f(xs[j + 1]) == Some(r[k]);
        }
      }
    } else {
      assert MapWhileSome(f, xs) == [];
    }
  }
}
