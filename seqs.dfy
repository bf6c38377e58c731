/** Generic list helpers shared by the model: filtering, counting, duplicate-freedom. */
module Seqs {

  import opened Wrappers

  /** `xs.filter(p)`: the elements satisfying `p`, in their original order. */
  function Filter<T(!new)>(xs: seq<T>, p: T -> bool): (r: seq<T>)
    ensures |r| <= |xs|
    ensures forall x :: x in r <==> x in xs && p(x)
  {
    if xs == [] then []
    else if p(xs[0]) then [xs[0]] + Filter(xs[1..], p)
    else Filter(xs[1..], p)
  }

  lemma {:induction false} FilterAppend<T(!new)>(xs: seq<T>, ys: seq<T>, p: T -> bool)
    ensures Filter(xs + ys, p) == Filter(xs, p) + Filter(ys, p)
  {
    if xs == [] {
      assert xs + ys == ys;
    } else {
      assert (xs + ys)[1..] == xs[1..] + ys;
      FilterAppend(xs[1..], ys, p);
    }
  }

  lemma ConsTail<T>(x: T, xs: seq<T>)
    ensures ([x] + xs)[1..] == xs && ([x] + xs)[0] == x
  {
  }

  /** A non-empty sequence is its front followed by its last element. */
  lemma LastSplit<T>(xs: seq<T>)
    requires xs != []
    ensures xs == xs[..|xs| - 1] + [xs[|xs| - 1]]
  {
  }

  lemma Ends<T>(xs: seq<T>)
    requires |xs| >= 2
    ensures xs == [xs[0]] + xs[1..|xs| - 1] + [xs[|xs| - 1]]
  {
  }

  lemma TakeAll<T>(xs: seq<T>)
    ensures xs[..|xs|] == xs
  {
  }

  lemma TakeSnoc<T>(xs: seq<T>, m: nat)
    requires 0 < m <= |xs|
    ensures xs[..m] == xs[..m - 1] + [xs[m - 1]]
  {
  }

  lemma FilterSnoc<T(!new)>(xs: seq<T>, x: T, p: T -> bool)
    ensures Filter(xs + [x], p) == Filter(xs, p) + (if p(x) then [x] else [])
  {
    FilterAppend(xs, [x], p);
    assert [x][1..] == [];
  }

  /** Filtering keeps everything when every element passes. */
  lemma {:induction false} FilterAll<T(!new)>(xs: seq<T>, p: T -> bool)
    requires forall x :: x in xs ==> p(x)
    ensures Filter(xs, p) == xs
  {
    if xs != [] {
      FilterAll(xs[1..], p);
    }
  }

  /** Filtering drops everything when no element passes. */
  lemma {:induction false} FilterNone<T(!new)>(xs: seq<T>, p: T -> bool)
    ensures (forall x :: x in xs ==> !p(x)) ==> Filter(xs, p) == []
  {
    if xs != [] {
      FilterNone(xs[1..], p);
      assert xs[0] in xs;
    }
  }

  function Count<T(==)>(xs: seq<T>, x: T): (n: nat)
    ensures n <= |xs|
    ensures n == 0 <==> x !in xs
  {
    if xs == [] then 0
    else (if xs[0] == x then 1 else 0) + Count(xs[1..], x)
  }

  lemma {:induction false} CountAppend<T>(xs: seq<T>, ys: seq<T>, x: T)
    ensures Count(xs + ys, x) == Count(xs, x) + Count(ys, x)
  {
    if xs == [] {
      assert xs + ys == ys;
    } else {
      assert (xs + ys)[1..] == xs[1..] + ys;
      CountAppend(xs[1..], ys, x);
    }
  }

  /** `xs.filter(y => y !== x)`. */
  function Remove<T(==,!new)>(xs: seq<T>, x: T): (r: seq<T>)
    ensures x !in r
    ensures forall y :: y in r <==> y in xs && y != x
    ensures |r| <= |xs|
  {
    Filter(xs, y => y != x)
  }

  /** Removing every `x` does not disturb how often any other value occurs. */
  lemma {:induction false} CountRemoveOther<T(!new)>(xs: seq<T>, x: T, y: T)
    requires y != x
    ensures Count(Remove(xs, x), y) == Count(xs, y)
  {
    if xs != [] {
      CountRemoveOther(xs[1..], x, y);
    }
  }

  /** Removing a value that is not present changes nothing. */
  lemma RemoveAbsent<T(!new)>(xs: seq<T>, x: T)
    requires x !in xs
    ensures Remove(xs, x) == xs
  {
    FilterAll(xs, y => y != x);
  }

  /** Appending an absent value and then removing it gives the list back. */
  lemma RemoveAppended<T(!new)>(xs: seq<T>, x: T)
    requires x !in xs
    ensures Remove(xs + [x], x) == xs
  {
    FilterSnoc(xs, x, y => y != x);
    RemoveAbsent(xs, x);
  }

  /** `list.includes(x) ? list : [...list, x]`. */
  function AddIfAbsent<T(==,!new)>(xs: seq<T>, x: T): (r: seq<T>)
    ensures x in r
    ensures Count(r, x) == if x in xs then Count(xs, x) else 1
    ensures forall y :: y != x ==> Count(r, y) == Count(xs, y)
  {
    if x in xs then xs
    else
      assert forall y :: Count(xs + [x], y) == Count(xs, y) + Count([x], y) by {
        forall y ensures Count(xs + [x], y) == Count(xs, y) + Count([x], y) {
          CountAppend(xs, [x], y);
        }
      }
      xs + [x]
  }

  /** No value occurs twice. */
  ghost predicate NoDuplicates<T>(xs: seq<T>)
  {
    forall i, j :: 0 <= i < j < |xs| ==> xs[i] != xs[j]
  }

  lemma NoDuplicatesAppend<T>(xs: seq<T>, ys: seq<T>)
    requires NoDuplicates(xs) && NoDuplicates(ys)
    requires forall y :: y in ys ==> y !in xs
    ensures NoDuplicates(xs + ys)
  {
    forall i, j | 0 <= i < j < |xs + ys|
      ensures (xs + ys)[i] != (xs + ys)[j]
    {
      if j >= |xs| && i < |xs| {
        assert (xs + ys)[j] == ys[j - |xs|];
        assert (xs + ys)[j] in ys;
      }
    }
  }

  /** `xs.map(g).filter(keep)` as one pass: `f(x)` is the image of `x`, or `None` when the
      image is dropped. Order is kept and duplicates stay. */
  function MapFilter<T(!new), U(!new)>(xs: seq<T>, f: T -> Option<U>): (r: seq<U>)
    ensures |r| <= |xs|
    ensures forall y :: y in r <==> exists x :: x in xs && f(x) == Some(y)
  {
    if xs == [] then []
    else
      var rest := MapFilter(xs[1..], f);
      assert forall x :: x in xs <==> x == xs[0] || x in xs[1..];
      match f(xs[0])
      case None => rest
      case Some(y) => [y] + rest
  }

  /** The pass works element by element: it distributes over concatenation, and one element
      gives its image or nothing. */
  lemma {:induction false} MapFilterAppend<T(!new), U(!new)>(xs: seq<T>, ys: seq<T>, f: T -> Option<U>)
    ensures MapFilter(xs + ys, f) == MapFilter(xs, f) + MapFilter(ys, f)
  {
    if xs == [] {
      assert xs + ys == ys;
    } else {
      assert (xs + ys)[0] == xs[0];
      assert (xs + ys)[1..] == xs[1..] + ys;
      MapFilterAppend(xs[1..], ys, f);
    }
  }
}
