/**
 * The two array methods the loading pipeline chains, `map` and `filter`, and `filter(Boolean)` on optional values, on
 * sequences, with the facts about them that do not depend on the element type.
 */
module Seqs {
  import opened Wrappers

  /** `xs.map(f)`. */
  function Map<A, B>(f: A -> B, xs: seq<A>): (r: seq<B>)
    ensures |r| == |xs|
    ensures forall k :: 0 <= k < |xs| ==> r[k] == f(xs[k])
  {
    seq(|xs|, k requires 0 <= k < |xs| => f(xs[k]))
  }

  lemma MapAppend<A, B>(f: A -> B, a: seq<A>, b: seq<A>)
    ensures Map(f, a + b) == Map(f, a) + Map(f, b)
  {
    assert forall k :: 0 <= k < |a| ==> (a + b)[k] == a[k];
    assert forall k :: |a| <= k < |a| + |b| ==> (a + b)[k] == b[k - |a|];
  }

  /** `xs.filter(keep)`: the elements that pass, in order. */
  function Filter<T>(keep: T -> bool, xs: seq<T>): (r: seq<T>)
    ensures |r| <= |xs|
    decreases |xs|
  {
    if xs == [] then [] else (if keep(xs[0]) then [xs[0]] else []) + Filter(keep, xs[1..])
  }

  lemma {:induction false} FilterMembers<T>(keep: T -> bool, xs: seq<T>)
    ensures forall x :: x in Filter(keep, xs) <==> x in xs && keep(x)
    decreases |xs|
  {
    if xs != [] {
      FilterMembers(keep, xs[1..]);
      assert xs == [xs[0]] + xs[1..];
    }
  }

  lemma {:induction false} FilterAppend<T>(keep: T -> bool, a: seq<T>, b: seq<T>)
    ensures Filter(keep, a + b) == Filter(keep, a) + Filter(keep, b)
    decreases |a|
  {
    if a == [] {
      assert a + b == b;
    } else {
      var head := if keep(a[0]) then [a[0]] else [];
      assert (a + b)[0] == a[0];
      assert (a + b)[1..] == a[1..] + b;
      FilterAppend(keep, a[1..], b);
      Associative(head, Filter(keep, a[1..]), Filter(keep, b));
    }
  }

  lemma Associative<T>(x: seq<T>, y: seq<T>, z: seq<T>)
    ensures (x + y) + z == x + (y + z)
  {
  }

  lemma FilterOne<T>(keep: T -> bool, x: T)
    ensures Filter(keep, [x]) == if keep(x) then [x] else []
  {
    assert [x][1..] == [];
  }

  lemma {:induction false} FilterNone<T>(keep: T -> bool, xs: seq<T>)
    requires forall k :: 0 <= k < |xs| ==> !keep(xs[k])
    ensures Filter(keep, xs) == []
    decreases |xs|
  {
    if xs != [] {
      FilterNone(keep, xs[1..]);
    }
  }

  /** `xs.filter(Boolean)` on optional values: the values present, in order. */
  function Present<T>(xs: seq<Option<T>>): (r: seq<T>)
    ensures |r| <= |xs|
    decreases |xs|
  {
    if xs == [] then []
    else (if xs[0].Some? then [xs[0].value] else []) + Present(xs[1..])
  }

  lemma {:induction false} PresentAppend<T>(a: seq<Option<T>>, b: seq<Option<T>>)
    ensures Present(a + b) == Present(a) + Present(b)
    decreases |a|
  {
    if a == [] {
      assert a + b == b;
    } else {
      assert (a + b)[0] == a[0];
      assert (a + b)[1..] == a[1..] + b;
      PresentAppend(a[1..], b);
      Associative(if a[0].Some? then [a[0].value] else [], Present(a[1..]), Present(b));
    }
  }

  lemma {:induction false} PresentFrom<T>(xs: seq<Option<T>>, y: T)
    requires y in Present(xs)
    ensures exists k :: 0 <= k < |xs| && xs[k] == Some(y)
    decreases |xs|
  {
    if xs[0] != Some(y) {
      assert y in Present(xs[1..]);
      PresentFrom(xs[1..], y);
      var k :| 0 <= k < |xs[1..]| && xs[1..][k] == Some(y);
      assert xs[k + 1] == Some(y);
    }
  }

  lemma {:induction false} PresentHas<T>(xs: seq<Option<T>>, k: nat)
    requires k < |xs| && xs[k].Some?
    ensures xs[k].value in Present(xs)
    decreases k
  {
    if k > 0 {
      assert xs[1..][k - 1] == xs[k];
      PresentHas(xs[1..], k - 1);
    }
  }

  /** `xs.map(f).filter(Boolean)` holds the values `f` gives for the elements of `xs`, and only those. */
  lemma MapPresentMembers<A, B>(f: A -> Option<B>, xs: seq<A>)
    ensures forall y :: y in Present(Map(f, xs)) ==> exists x :: x in xs && f(x) == Some(y)
    ensures forall k :: 0 <= k < |xs| && f(xs[k]).Some? ==> f(xs[k]).value in Present(Map(f, xs))
  {
    var ys := Map(f, xs);
    forall y | y in Present(ys) ensures exists x :: x in xs && f(x) == Some(y) {
      PresentFrom(ys, y);
      var k :| 0 <= k < |ys| && ys[k] == Some(y);
      assert xs[k] in xs && f(xs[k]) == Some(y);
    }
    forall k | 0 <= k < |xs| && f(xs[k]).Some? ensures f(xs[k]).value in Present(ys) {
      PresentHas(ys, k);
    }
  }
}
