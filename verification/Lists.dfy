/** Keeping the elements of a list that satisfy a condition, and mapping over a list. */
module Lists {
  function Select<T>(keep: T -> bool, xs: seq<T>): (ys: seq<T>) {
    if xs == [] then []
    else
      var front, last := xs[..|xs| - 1], xs[|xs| - 1];
      if keep(last) then Select(keep, front) + [last] else Select(keep, front)
  }

  /** The positions of the kept elements. */
  function Positions<T>(keep: T -> bool, xs: seq<T>): (at: seq<nat>)
    ensures forall i | 0 <= i < |at| :: at[i] < |xs|
  {
    if xs == [] then []
    else
      var n := |xs| - 1;
      if keep(xs[n]) then Positions(keep, xs[..n]) + [n] else Positions(keep, xs[..n])
  }

  /** Select takes the elements at increasing positions, so it keeps their order and repetitions. */
  lemma {:induction false} SelectIsSubsequence<T>(keep: T -> bool, xs: seq<T>)
    ensures var at, ys := Positions(keep, xs), Select(keep, xs);
            && |at| == |ys|
            && (forall i, j | 0 <= i < j < |at| :: at[i] < at[j])
            && (forall i | 0 <= i < |at| :: ys[i] == xs[at[i]] && keep(ys[i]))
  {
    if xs != [] {
      SelectIsSubsequence(keep, xs[..|xs| - 1]);
    }
  }

  /** And it takes every element it should. */
  lemma {:induction false} SelectIsComplete<T>(keep: T -> bool, xs: seq<T>, k: nat)
    requires k < |xs| && keep(xs[k])
    ensures k in Positions(keep, xs)
  {
    if k < |xs| - 1 {
      SelectIsComplete(keep, xs[..|xs| - 1], k);
    }
  }

  /** Kept and dropped elements together are the input, element for element. */
  lemma {:induction false} SelectPartitions<T>(keep: T -> bool, drop: T -> bool, xs: seq<T>)
    requires forall x <- xs :: drop(x) <==> !keep(x)
    ensures multiset(Select(keep, xs)) + multiset(Select(drop, xs)) == multiset(xs)
  {
    if xs != [] {
      var front, last := xs[..|xs| - 1], xs[|xs| - 1];
      SelectPartitions(keep, drop, front);
      assert xs == front + [last];
      assert multiset(xs) == multiset(front) + multiset{last};
    }
  }

  lemma {:induction false} SelectTwice<T>(first: T -> bool, second: T -> bool, both: T -> bool, xs: seq<T>)
    requires forall x <- xs :: both(x) <==> first(x) && second(x)
    ensures Select(second, Select(first, xs)) == Select(both, xs)
  {
    if xs != [] {
      var front, last := xs[..|xs| - 1], xs[|xs| - 1];
      SelectTwice(first, second, both, front);
      assert (Select(first, front) + [last])[..|Select(first, front)|] == Select(first, front);
    }
  }

  lemma SelectSnoc<T>(keep: T -> bool, xs: seq<T>, n: nat)
    requires n < |xs|
    ensures Select(keep, xs[..n + 1]) == Select(keep, xs[..n]) + (if keep(xs[n]) then [xs[n]] else [])
  {
    assert xs[..n + 1][..n] == xs[..n];
  }

  lemma {:induction false} SelectCons<T>(keep: T -> bool, x: T, xs: seq<T>)
    ensures Select(keep, [x] + xs) == (if keep(x) then [x] else []) + Select(keep, xs)
  {
    if xs == [] {
      assert [x] + xs == [x] && [x][..0] == [];
    } else {
      SelectCons(keep, x, xs[..|xs| - 1]);
      assert ([x] + xs)[..|xs|] == [x] + xs[..|xs| - 1];
    }
  }

  lemma {:induction false} SelectSame<T>(keep: T -> bool, keep': T -> bool, xs: seq<T>)
    requires forall x <- xs :: keep(x) <==> keep'(x)
    ensures Select(keep, xs) == Select(keep', xs)
  {
    if xs != [] {
      SelectSame(keep, keep', xs[..|xs| - 1]);
    }
  }

  function Map<T, U>(f: T -> U, xs: seq<T>): (ys: seq<U>)
    ensures |ys| == |xs|
    ensures forall i | 0 <= i < |xs| :: ys[i] == f(xs[i])
  {
    seq(|xs|, i requires 0 <= i < |xs| => f(xs[i]))
  }

  function Concat<T>(xss: seq<seq<T>>): seq<T> {
    if xss == [] then [] else Concat(xss[..|xss| - 1]) + xss[|xss| - 1]
  }

  /** One element for each that is kept, none for the others. */
  lemma {:induction false} ConcatSelects<T, U>(xss: seq<seq<U>>, keep: T -> bool, f: T -> U, xs: seq<T>)
    requires |xss| == |xs| && forall i | 0 <= i < |xs| :: xss[i] == if keep(xs[i]) then [f(xs[i])] else []
    ensures Concat(xss) == Map(f, Select(keep, xs))
  {
    if xs != [] {
      var front, last := xs[..|xs| - 1], xs[|xs| - 1];
      ConcatSelects(xss[..|xs| - 1], keep, f, front);
      assert keep(last) ==> Map(f, Select(keep, front) + [last]) == Map(f, Select(keep, front)) + [f(last)];
    }
  }

  lemma ConcatSnoc<T>(xss: seq<seq<T>>, n: nat)
    requires n < |xss|
    ensures Concat(xss[..n + 1]) == Concat(xss[..n]) + xss[n]
  {
    assert xss[..n + 1][..n] == xss[..n];
  }

  lemma {:induction false} ConcatCons<T>(xs: seq<T>, xss: seq<seq<T>>)
    ensures Concat([xs] + xss) == xs + Concat(xss)
  {
    if xss == [] {
      assert [xs] + xss == [xs] && [xs][..0] == [];
    } else {
      ConcatCons(xs, xss[..|xss| - 1]);
      assert ([xs] + xss)[..|xss|] == [xs] + xss[..|xss| - 1];
    }
  }

  lemma {:induction false} InConcat<T>(xss: seq<seq<T>>, x: T)
    ensures x in Concat(xss) <==> exists i | 0 <= i < |xss| :: x in xss[i]
  {
    if xss != [] {
      InConcat(xss[..|xss| - 1], x);
    }
  }

  function Count<T(==)>(x: T, xs: seq<T>): nat {
    if xs == [] then 0
    else Count(x, xs[..|xs| - 1]) + (if xs[|xs| - 1] == x then 1 else 0)
  }

  lemma {:induction false} CountConcat<T>(x: T, xs: seq<T>, ys: seq<T>)
    ensures Count(x, xs + ys) == Count(x, xs) + Count(x, ys)
  {
    if ys == [] {
      assert xs + ys == xs;
    } else {
      CountConcat(x, xs, ys[..|ys| - 1]);
      assert (xs + ys)[..|xs + ys| - 1] == xs + ys[..|ys| - 1];
    }
  }

  lemma {:induction false} CountIsZero<T>(x: T, xs: seq<T>)
    ensures Count(x, xs) == 0 <==> x !in xs
  {
    if xs != [] {
      CountIsZero(x, xs[..|xs| - 1]);
    }
  }

  lemma CountOne<T>(x: T, y: T)
    ensures Count(x, [y]) == if x == y then 1 else 0
  {
    assert Count(x, [y][..0]) == 0;
  }
}
