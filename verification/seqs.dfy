/** Sequences without repeats and first-seen deduplication: the order in which
    a JavaScript object enumerates keys that were assigned one after another. */
module Seqs {

  predicate Distinct<T(==)>(xs: seq<T>) {
    forall i, j :: 0 <= i < j < |xs| ==> xs[i] != xs[j]
  }

  /** Position of the first occurrence of `x` in `xs`. */
  function FirstIndex<T(==)>(xs: seq<T>, x: T): (k: nat)
    requires x in xs
    ensures k < |xs| && xs[k] == x && x !in xs[..k]
  {
    if xs[0] == x then 0
    else
      assert x in xs[1..] by {
        var j :| 0 <= j < |xs| && xs[j] == x;
        assert xs[1..][j - 1] == x;
      }
      var k := FirstIndex(xs[1..], x);
      assert xs[..k + 1] == [xs[0]] + xs[1..][..k];
      k + 1
  }

  /** The texts of `xs`, each kept at its first occurrence: what remains of
      a run of `uniq[x] = true` assignments when the keys are enumerated. */
  function Dedup(xs: seq<string>): (r: seq<string>)
    ensures Distinct(r)
    ensures forall x :: x in r <==> x in xs
  {
    if |xs| == 0 then []
    else
      var p := Dedup(xs[..|xs| - 1]);
      var last := xs[|xs| - 1];
      assert xs == xs[..|xs| - 1] + [last];
      if last in p then p else p + [last]
  }

  /** One more element: kept at the end exactly when it was not seen before. */
  lemma DedupSnoc(xs: seq<string>, x: string)
    ensures Dedup(xs + [x]) == if x in Dedup(xs) then Dedup(xs) else Dedup(xs) + [x]
  {
    assert (xs + [x])[..|xs|] == xs;
  }

  lemma FirstIndexOfPrefix<T>(xs: seq<T>, n: nat, x: T)
    requires n <= |xs|
    requires x in xs[..n]
    ensures x in xs
    ensures FirstIndex(xs, x) == FirstIndex(xs[..n], x)
  {
    var k := FirstIndex(xs[..n], x);
    assert xs[..n][..k] == xs[..k];
  }

  /** Deduplication keeps first-seen order: an element listed earlier was
      first seen earlier. */
  lemma {:induction false} DedupFirstSeen(xs: seq<string>)
    ensures forall i, j :: 0 <= i < j < |Dedup(xs)| ==>
      FirstIndex(xs, Dedup(xs)[i]) < FirstIndex(xs, Dedup(xs)[j])
    decreases |xs|
  {
    if |xs| > 0 {
      DedupFirstSeen(xs[..|xs| - 1]);
      var r := Dedup(xs);
      forall i, j | 0 <= i < j < |r|
        ensures FirstIndex(xs, r[i]) < FirstIndex(xs, r[j])
      {
        DedupFirstSeenStep(xs, i, j);
      }
    }
  }

  /** One step of `DedupFirstSeen`: given the order for all but the last
      element, it holds for any two kept elements. */
  lemma DedupFirstSeenStep(xs: seq<string>, i: nat, j: nat)
    requires |xs| > 0
    requires var p := Dedup(xs[..|xs| - 1]);
      forall a, b :: 0 <= a < b < |p| ==> FirstIndex(xs[..|xs| - 1], p[a]) < FirstIndex(xs[..|xs| - 1], p[b])
    requires i < j < |Dedup(xs)|
    ensures FirstIndex(xs, Dedup(xs)[i]) < FirstIndex(xs, Dedup(xs)[j])
  {
    var n := |xs| - 1;
    var init := xs[..n];
    var last := xs[n];
    var p := Dedup(init);
    assert xs == init + [last];
    DedupSnoc(init, last);
    var r := Dedup(xs);
    assert r[i] == p[i];
    FirstIndexOfPrefix(xs, n, r[i]);
    if j < |p| {
      assert r[j] == p[j];
      FirstIndexOfPrefix(xs, n, r[j]);
    } else {
      assert r[j] == last && last !in init;
      assert FirstIndex(xs, last) == n;
    }
  }
}
