/** Sequence helpers shared by the enumerator and the report builder. */
module Seqs {

  /** The concatenation of a list of lists, in order. */
  function Flatten<T>(xss: seq<seq<T>>): seq<T>
  {
    if xss == [] then [] else xss[0] + Flatten(xss[1..])
  }

  /** How many of the flags are set. */
  function Count(bs: seq<bool>): (n: nat)
    ensures n <= |bs|
  {
    if bs == [] then 0 else (if bs[0] then 1 else 0) + Count(bs[1..])
  }

  lemma {:induction false} FlattenAppend<T>(a: seq<seq<T>>, b: seq<seq<T>>)
    ensures Flatten(a + b) == Flatten(a) + Flatten(b)
  {
    if a == [] {
      assert a + b == b;
    } else {
      assert (a + b)[1..] == a[1..] + b;
      FlattenAppend(a[1..], b);
    }
  }

  /** Flattening a list extended by one element extends the result by that element. */
  lemma FlattenSnoc<T>(xss: seq<seq<T>>, xs: seq<T>)
    ensures Flatten(xss + [xs]) == Flatten(xss) + xs
  {
    FlattenAppend(xss, [xs]);
    assert Flatten([xs]) == xs + Flatten([xs][1..]);
  }

  /** Element j of list i sits in the flattening right after everything of the lists before i. */
  lemma FlattenAt<T>(xss: seq<seq<T>>, i: nat, j: nat)
    requires i < |xss| && j < |xss[i]|
    ensures |Flatten(xss[..i])| + j < |Flatten(xss)|
    ensures Flatten(xss)[|Flatten(xss[..i])| + j] == xss[i][j]
  {
    assert xss[..i] + xss[i..] == xss;
    FlattenAppend(xss[..i], xss[i..]);
    assert Flatten(xss[i..]) == xss[i] + Flatten(xss[i..][1..]);
  }

  lemma {:induction false} CountSnoc(bs: seq<bool>, b: bool)
    ensures Count(bs + [b]) == Count(bs) + (if b then 1 else 0)
  {
    if bs == [] {
      assert [] + [b] == [b];
    } else {
      assert (bs + [b])[1..] == bs[1..] + [b];
      CountSnoc(bs[1..], b);
    }
  }

  /** A flattening of lists of at most one element each has one element per non-empty list. */
  lemma {:induction false} FlattenAtMostOne<T>(xss: seq<seq<T>>)
    requires forall k :: 0 <= k < |xss| ==> |xss[k]| <= 1
    ensures |Flatten(xss)| == Count(seq(|xss|, k requires 0 <= k < |xss| => |xss[k]| == 1))
  {
    if xss != [] {
      FlattenAtMostOne(xss[1..]);
      var bs := seq(|xss|, k requires 0 <= k < |xss| => |xss[k]| == 1);
      assert bs[1..] == seq(|xss[1..]|, k requires 0 <= k < |xss[1..]| => |xss[1..][k]| == 1);
    }
  }

  /** The total of the numbers. */
  function Sum(ns: seq<nat>): nat
  {
    if ns == [] then 0 else ns[0] + Sum(ns[1..])
  }

  lemma {:induction false} SumSnoc(ns: seq<nat>, n: nat)
    ensures Sum(ns + [n]) == Sum(ns) + n
  {
    if ns == [] {
      assert [] + [n] == [n];
    } else {
      assert (ns + [n])[1..] == ns[1..] + [n];
      SumSnoc(ns[1..], n);
    }
  }
}
