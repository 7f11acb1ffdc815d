/** Sequence helpers shared by the parser and the sort. */
module Seqs {

  /** `f` applied to every element, the results concatenated in order. */
  function FlatMap<T, U>(f: T -> seq<U>, s: seq<T>): (r: seq<U>)
  {
    if |s| == 0 then [] else f(s[0]) + FlatMap(f, s[1..])
  }

  /** `FlatMap` works element by element: it distributes over concatenation. */
  lemma {:induction false} FlatMapAppend<T, U>(f: T -> seq<U>, a: seq<T>, b: seq<T>)
    ensures FlatMap(f, a + b) == FlatMap(f, a) + FlatMap(f, b)
  {
    if |a| == 0 {
      assert a + b == b;
    } else {
      var h := f(a[0]);
      assert (a + b)[0] == a[0] && (a + b)[1..] == a[1..] + b;
      calc {
        FlatMap(f, a + b);
        h + FlatMap(f, a[1..] + b);
        { FlatMapAppend(f, a[1..], b); }
        h + (FlatMap(f, a[1..]) + FlatMap(f, b));
        (h + FlatMap(f, a[1..])) + FlatMap(f, b);
        FlatMap(f, a) + FlatMap(f, b);
      }
    }
  }

  /** `FlatMap` of a single element is that element's image. */
  lemma FlatMapOne<T, U>(f: T -> seq<U>, x: T)
    ensures FlatMap(f, [x]) == f(x)
  {
    assert FlatMap(f, [x]) == f(x) + FlatMap(f, []);
  }

  /** Every element of a `FlatMap` comes from the image of some element of the input. */
  lemma {:induction false} FlatMapElems<T, U>(f: T -> seq<U>, s: seq<T>, P: U -> bool)
    requires forall i, j :: 0 <= i < |s| && 0 <= j < |f(s[i])| ==> P(f(s[i])[j])
    ensures forall k :: 0 <= k < |FlatMap(f, s)| ==> P(FlatMap(f, s)[k])
  {
    if |s| > 0 {
      FlatMapElems(f, s[1..], P);
      var h, t := f(s[0]), FlatMap(f, s[1..]);
      forall k | 0 <= k < |h + t| ensures P((h + t)[k]) {
        if k >= |h| {
          assert (h + t)[k] == t[k - |h|];
        } else {
          assert (h + t)[k] == f(s[0])[k];
        }
      }
    }
  }

  /** When every image has at most one element, the `FlatMap` is no longer than its input. */
  lemma {:induction false} FlatMapShorter<T, U>(f: T -> seq<U>, s: seq<T>)
    requires forall i :: 0 <= i < |s| ==> |f(s[i])| <= 1
    ensures |FlatMap(f, s)| <= |s|
  {
    if |s| > 0 {
      FlatMapShorter(f, s[1..]);
    }
  }

  /** When `f` maps every element of `s` to the one-element sequence of the matching element of `r`, `FlatMap` gives `r`. */
  lemma {:induction false} FlatMapSingletons<T, U>(f: T -> seq<U>, s: seq<T>, r: seq<U>)
    requires |r| == |s|
    requires forall i :: 0 <= i < |s| ==> f(s[i]) == [r[i]]
    ensures FlatMap(f, s) == r
  {
    if |s| > 0 {
      FlatMapSingletons(f, s[1..], r[1..]);
      assert r == [r[0]] + r[1..];
    }
  }

  /** `FlatMap` over four elements. */
  lemma FlatMapFour<T, U>(f: T -> seq<U>, a: T, b: T, c: T, d: T)
    ensures FlatMap(f, [a, b, c, d]) == f(a) + f(b) + f(c) + f(d)
  {
    var s := [a, b, c, d];
    assert s[1..] == [b, c, d];
    assert s[1..][1..] == [c, d];
    assert s[1..][1..][1..] == [d];
    FlatMapOne(f, d);
    assert FlatMap(f, [c, d]) == f(c) + f(d);
    assert FlatMap(f, [b, c, d]) == f(b) + (f(c) + f(d));
  }
}
