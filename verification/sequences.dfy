/** The list idioms every handler repeats: find the first match, set or remove
    it and stop (a loop with `break`), and `removeIf`. */
module Sequences {
  import opened Wrappers

  /** Index of the first element satisfying p, None when there is none. */
  function FirstIndex<T>(xs: seq<T>, p: T -> bool): (r: Option<nat>)
    ensures r.None? <==> forall i :: 0 <= i < |xs| ==> !p(xs[i])
    ensures r.Some? ==> r.value < |xs| && p(xs[r.value])
    ensures r.Some? ==> forall i :: 0 <= i < r.value ==> !p(xs[i])
  {
    if |xs| == 0 then None
    else if p(xs[0]) then Some(0)
    else
      match FirstIndex(xs[1..], p)
      case None => None
      case Some(k) => Some(k + 1)
  }

  /** The first match is at k when xs[k] matches and nothing before it does. */
  lemma FirstIndexAt<T>(xs: seq<T>, p: T -> bool, k: nat)
    requires k < |xs| && p(xs[k])
    requires forall i :: 0 <= i < k ==> !p(xs[i])
    ensures FirstIndex(xs, p) == Some(k)
  {
    var first := FirstIndex(xs, p);
    assert first.Some? && first.value <= k;
  }

  /** Putting another matching element in place of the first match keeps the
      first match where it was. */
  lemma FirstIndexAfterReplace<T>(xs: seq<T>, p: T -> bool, k: nat, y: T)
    requires FirstIndex(xs, p) == Some(k) && p(y)
    ensures FirstIndex(xs[k := y], p) == Some(k)
  {
    var ys := xs[k := y];
    assert forall i :: 0 <= i < k ==> ys[i] == xs[i];
    FirstIndexAt(ys, p, k);
  }

  /** Removing the first match takes exactly that one element out. */
  lemma {:induction false} RemoveFirstMultiset<T>(xs: seq<T>, p: T -> bool)
    requires FirstIndex(xs, p).Some?
    ensures multiset(RemoveFirst(xs, p)) == multiset(xs) - multiset{xs[FirstIndex(xs, p).value]}
    decreases |xs|
  {
    assert xs == [xs[0]] + xs[1..];
    if !p(xs[0]) {
      RemoveFirstMultiset(xs[1..], p);
      assert xs[FirstIndex(xs, p).value] == xs[1..][FirstIndex(xs[1..], p).value];
    }
  }

  /** Removing the element at k takes exactly that one element out. */
  lemma RemoveAtMultiset<T>(xs: seq<T>, k: nat)
    requires k < |xs|
    ensures multiset(xs[..k] + xs[k + 1..]) == multiset(xs) - multiset{xs[k]}
  {
    var before, after := xs[..k], xs[k + 1..];
    assert xs == before + [xs[k]] + after;
    var m := multiset(before) + multiset(after);
    assert multiset(xs) == m + multiset{xs[k]};
  }

  /** `for (i ...) if (p(xs.get(i))) { xs.set(i, f(xs.get(i))); break; }`:
      only the first match changes, every other element stays where it was. */
  function ReplaceFirst<T>(xs: seq<T>, p: T -> bool, f: T -> T): (r: seq<T>)
    ensures FirstIndex(xs, p).None? ==> r == xs
    ensures FirstIndex(xs, p).Some? ==>
              var k := FirstIndex(xs, p).value;
              r == xs[k := f(xs[k])]
  {
    if |xs| == 0 then []
    else if p(xs[0]) then [f(xs[0])] + xs[1..]
    else [xs[0]] + ReplaceFirst(xs[1..], p, f)
  }

  /** `for (i ...) if (p(xs.get(i))) { xs.remove(i); break; }`, and also
      `List.remove(Object)`: the first match goes, the rest keep their order. */
  function RemoveFirst<T>(xs: seq<T>, p: T -> bool): (r: seq<T>)
    ensures FirstIndex(xs, p).None? ==> r == xs
    ensures FirstIndex(xs, p).Some? ==>
              var k := FirstIndex(xs, p).value;
              r == xs[..k] + xs[k + 1..]
  {
    if |xs| == 0 then []
    else if p(xs[0]) then xs[1..]
    else [xs[0]] + RemoveFirst(xs[1..], p)
  }

  /** The elements kept by `keep`, in order; `removeIf(p)` is Filter with the
      negation of p. */
  function Filter<T>(xs: seq<T>, keep: T -> bool): (r: seq<T>)
    ensures |r| <= |xs|
    ensures forall i :: 0 <= i < |r| ==> keep(r[i])
  {
    if |xs| == 0 then []
    else (if keep(xs[0]) then [xs[0]] else []) + Filter(xs[1..], keep)
  }

  /** The values f gives for the elements, in order, leaving out those it
      maps to None. */
  function FilterMap<T, U>(xs: seq<T>, f: T -> Option<U>): (r: seq<U>)
    ensures |r| <= |xs|
    decreases |xs|
  {
    if |xs| == 0 then []
    else
      var last := match f(xs[|xs| - 1])
                  case Some(y) => [y]
                  case None => [];
      FilterMap(xs[..|xs| - 1], f) + last
  }

  /** A value is listed exactly when some element maps to it. */
  lemma {:induction false} FilterMapMembers<T, U(!new)>(xs: seq<T>, f: T -> Option<U>)
    ensures forall y :: y in FilterMap(xs, f) <==> exists i :: 0 <= i < |xs| && f(xs[i]) == Some(y)
    decreases |xs|
  {
    if |xs| > 0 {
      var init := xs[..|xs| - 1];
      FilterMapMembers(init, f);
      assert forall i :: 0 <= i < |init| ==> init[i] == xs[i];
    }
  }

  /** Exactly the kept elements of the list remain. */
  lemma {:induction false} FilterMembers<T(!new)>(xs: seq<T>, keep: T -> bool)
    ensures forall x :: x in Filter(xs, keep) <==> x in xs && keep(x)
    decreases |xs|
  {
    if |xs| > 0 {
      FilterMembers(xs[1..], keep);
      assert xs == [xs[0]] + xs[1..];
    }
  }

  /** Filtering a list with one more element at the end. */
  lemma {:induction false} FilterSnoc<T(!new)>(xs: seq<T>, x: T, keep: T -> bool)
    ensures Filter(xs + [x], keep) == Filter(xs, keep) + (if keep(x) then [x] else [])
    decreases |xs|
  {
    var tail: seq<T> := if keep(x) then [x] else [];
    if |xs| == 0 {
      assert xs + [x] == [x];
      assert Filter([x], keep) == tail + Filter([], keep);
    } else {
      var head: seq<T> := if keep(xs[0]) then [xs[0]] else [];
      var ys := xs + [x];
      assert ys[0] == xs[0];
      assert ys[1..] == xs[1..] + [x];
      assert Filter(ys, keep) == head + Filter(ys[1..], keep);
      FilterSnoc(xs[1..], x, keep);
      var rest := Filter(xs[1..], keep);
      assert Filter(xs, keep) == head + rest;
      assert head + (rest + tail) == (head + rest) + tail;
    }
  }

  /** Every kept value occurs exactly as often as before, every other not at all. */
  lemma {:induction false} FilterCount<T(!new)>(xs: seq<T>, keep: T -> bool, x: T)
    ensures multiset(Filter(xs, keep))[x] == if keep(x) then multiset(xs)[x] else 0
    decreases |xs|
  {
    if |xs| > 0 {
      FilterCount(xs[1..], keep, x);
      var head := if keep(xs[0]) then [xs[0]] else [];
      assert xs == [xs[0]] + xs[1..];
      assert multiset(Filter(xs, keep)) == multiset(head) + multiset(Filter(xs[1..], keep));
    }
  }

  /** Nothing is removed from a list whose every element is kept. */
  lemma {:induction false} FilterKeepsAll<T(!new)>(xs: seq<T>, keep: T -> bool)
    requires forall i :: 0 <= i < |xs| ==> keep(xs[i])
    ensures Filter(xs, keep) == xs
    decreases |xs|
  {
    if |xs| > 0 {
      FilterKeepsAll(xs[1..], keep);
    }
  }
}
