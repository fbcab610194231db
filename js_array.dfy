/** The few `Array.prototype` operations the pages rely on (`map`, `filter`,
    `find`, `findIndex`), written as recursive functions over sequences.
    Each returns a fresh value, as the JavaScript ones return a fresh array. */
module JsArray {
  import opened Optional

  /** `xs.map(f)` */
  function Map<T, U>(xs: seq<T>, f: T -> U): (r: seq<U>)
    ensures |r| == |xs|
    ensures forall i :: 0 <= i < |xs| ==> r[i] == f(xs[i])
  {
    if xs == [] then [] else [f(xs[0])] + Map(xs[1..], f)
  }

  /** `xs.filter(keep)` */
  function Filter<T>(xs: seq<T>, keep: T -> bool): (r: seq<T>)
    ensures |r| <= |xs|
    ensures forall i :: 0 <= i < |r| ==> r[i] in xs && keep(r[i])
    ensures forall i :: 0 <= i < |xs| && keep(xs[i]) ==> xs[i] in r
  {
    if xs == [] then []
    else if keep(xs[0]) then [xs[0]] + Filter(xs[1..], keep)
    else Filter(xs[1..], keep)
  }

  /** `filter` distributes over concatenation: together with the one-element
      case (its body), this fixes the order of what it keeps. */
  lemma {:induction false} FilterAppend<T>(a: seq<T>, b: seq<T>, keep: T -> bool)
    ensures Filter(a + b, keep) == Filter(a, keep) + Filter(b, keep)
  {
    if a == [] {
      assert a + b == b;
    } else {
      assert (a + b)[1..] == a[1..] + b;
      FilterAppend(a[1..], b, keep);
    }
  }

  /** When every element is kept, `filter` returns its input. */
  lemma {:induction false} FilterKeepsAll<T>(xs: seq<T>, keep: T -> bool)
    requires forall i :: 0 <= i < |xs| ==> keep(xs[i])
    ensures Filter(xs, keep) == xs
  {
    if xs != [] {
      FilterKeepsAll(xs[1..], keep);
    }
  }

  /** `xs.findIndex(p)`, which answers -1 when no element satisfies `p`. */
  function FindIndex<T>(xs: seq<T>, p: T -> bool): (r: int)
    ensures -1 <= r < |xs|
    ensures r == -1 <==> forall i :: 0 <= i < |xs| ==> !p(xs[i])
    ensures 0 <= r ==> p(xs[r]) && forall i :: 0 <= i < r ==> !p(xs[i])
  {
    if xs == [] then -1
    else if p(xs[0]) then 0
    else
      var k := FindIndex(xs[1..], p);
      if k == -1 then -1 else k + 1
  }

  /** `xs.find(p)`: the first element that satisfies `p`, if any. */
  function Find<T>(xs: seq<T>, p: T -> bool): (r: Option<T>)
    ensures r.None? <==> forall i :: 0 <= i < |xs| ==> !p(xs[i])
    ensures r.Some? ==> exists i :: 0 <= i < |xs| && xs[i] == r.value && p(xs[i]) &&
                                    forall j :: 0 <= j < i ==> !p(xs[j])
  {
    var k := FindIndex(xs, p);
    if k == -1 then None else Some(xs[k])
  }
}
