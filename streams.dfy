/** The protocol between a Go range-over-func producer and its consumer.
    After every item the consumer's loop body answers whether it wants more
    (`yield` returns true); the producer stops at the first `false`. A consumer
    is a function `cont` of the items it has received so far. */
module Streams {

  /** `d` is what a consumer `cont` receives from a producer whose complete
      output is `s`: a prefix of `s`, every shorter non-empty prefix was
      answered with true, and it is either all of `s` or was answered with false. */
  ghost predicate IsDelivered<T>(d: seq<T>, s: seq<T>, cont: seq<T> -> bool)
  {
    && d <= s
    && (forall j :: 0 < j < |d| ==> cont(d[..j]))
    && (d == s || (d != [] && !cont(d)))
  }

  /** The items a consumer receives before it stops or the producer ends. */
  function Delivered<T>(s: seq<T>, cont: seq<T> -> bool): (d: seq<T>)
    ensures IsDelivered(d, s, cont)
  {
    DeliveredFrom(s, cont, 0)
  }

  function DeliveredFrom<T>(s: seq<T>, cont: seq<T> -> bool, n: nat): (d: seq<T>)
    requires n <= |s|
    requires forall j :: 0 < j <= n ==> cont(s[..j])
    ensures IsDelivered(d, s, cont)
    decreases |s| - n
  {
    if n == |s| then s
    else if !cont(s[..n + 1]) then
      PrefixesOfPrefix(s, n + 1);
      s[..n + 1]
    else DeliveredFrom(s, cont, n + 1)
  }

  /** A consumer and a producer determine what is delivered. */
  lemma DeliveredUnique<T>(d1: seq<T>, d2: seq<T>, s: seq<T>, cont: seq<T> -> bool)
    requires IsDelivered(d1, s, cont) && IsDelivered(d2, s, cont)
    ensures d1 == d2
  {
    assert d1 == s[..|d1|] && d2 == s[..|d2|];
    if |d1| < |d2| {
      ContinuedBefore(d2, s, cont, |d1|);
      assert false;
    } else if |d2| < |d1| {
      ContinuedBefore(d1, s, cont, |d2|);
      assert false;
    }
  }

  lemma ContinuedBefore<T>(d: seq<T>, s: seq<T>, cont: seq<T> -> bool, k: nat)
    requires IsDelivered(d, s, cont) && 0 < k < |d|
    ensures d[..k] == s[..k] && cont(s[..k])
  {
    assert cont(d[..k]);
  }

  lemma PrefixesOfPrefix<T>(s: seq<T>, n: nat)
    requires n <= |s|
    ensures forall j :: 0 <= j <= n ==> s[..n][..j] == s[..j]
  {
  }

  /** A producer that yields a single item ends after it whatever the consumer answers. */
  lemma DeliveredSingle<T>(x: T, cont: seq<T> -> bool)
    ensures Delivered([x], cont) == [x]
  {
    var d := Delivered([x], cont);
    assert d <= [x];
  }

  /** A consumer that accepted every earlier prefix receives the whole output. */
  lemma DeliveredAll<T>(s: seq<T>, cont: seq<T> -> bool)
    requires forall j :: 0 < j < |s| ==> cont(s[..j])
    ensures Delivered(s, cont) == s
  {
    DeliveredUnique(s, Delivered(s, cont), s, cont);
  }

  /** A consumer that accepted every earlier prefix and refuses `d` receives exactly `d`. */
  lemma DeliveredUntil<T>(d: seq<T>, s: seq<T>, cont: seq<T> -> bool)
    requires d <= s && d != [] && !cont(d)
    requires forall j :: 0 < j < |d| ==> cont(d[..j])
    ensures Delivered(s, cont) == d
  {
    DeliveredUnique(d, Delivered(s, cont), s, cont);
  }

  /** `cont` asked for more after every non-empty prefix of `d`, `d` itself included. */
  ghost predicate Accepted<T>(d: seq<T>, cont: seq<T> -> bool)
  {
    forall j :: 0 < j <= |d| ==> cont(d[..j])
  }

  /** Accepting `d` and then `d + [x]` is accepting every prefix of `d + [x]`. */
  lemma AcceptedAppend<T>(d: seq<T>, x: T, cont: seq<T> -> bool)
    requires Accepted(d, cont) && cont(d + [x])
    ensures Accepted(d + [x], cont)
  {
    forall j | 0 < j <= |d| + 1
      ensures cont((d + [x])[..j])
    {
      if j <= |d| {
        assert (d + [x])[..j] == d[..j];
      } else {
        assert (d + [x])[..j] == d + [x];
      }
    }
  }

  /** After accepting all of `d`, the consumer receives a last item `x` too. */
  lemma DeliveredLast<T>(d: seq<T>, x: T, cont: seq<T> -> bool)
    requires Accepted(d, cont)
    ensures Delivered(d + [x], cont) == d + [x]
  {
    forall j | 0 < j < |d| + 1
      ensures cont((d + [x])[..j])
    {
      assert (d + [x])[..j] == d[..j];
    }
    DeliveredAll(d + [x], cont);
  }

  /** After accepting all of `d`, a consumer that refuses `d + [x]` receives
      exactly `d + [x]`, whatever the output holds after it. */
  lemma DeliveredRefused<T>(d: seq<T>, x: T, rest: seq<T>, cont: seq<T> -> bool)
    requires Accepted(d, cont) && !cont(d + [x])
    ensures Delivered(d + [x] + rest, cont) == d + [x]
  {
    assert (d + [x] + rest)[..|d| + 1] == d + [x];
    forall j | 0 < j < |d| + 1
      ensures cont((d + [x])[..j])
    {
      assert (d + [x])[..j] == d[..j];
    }
    DeliveredUntil(d + [x], d + [x] + rest, cont);
  }

  /** A consumer can refuse only the last item it receives. */
  lemma RefusesOnlyLast<T>(d: seq<T>, s: seq<T>, cont: seq<T> -> bool, m: nat)
    requires IsDelivered(d, s, cont) && 0 < m <= |d| && !cont(d[..m])
    ensures m == |d| && d[..m] == d
  {
    if m < |d| {
      ContinuedBefore(d, s, cont, m);
      assert false;
    }
  }
}
