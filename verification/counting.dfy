/** `Counter(sizes).most_common(n)`: the distinct values in order of first
    appearance with their numbers of occurrences, and the `n` values that come
    first when they are sorted by count, most frequent first, with equal counts
    left in order of first appearance. */
module Counting {

  /** How often `v` occurs in `xs`. */
  function Count(xs: seq<int>, v: int): nat {
    multiset(xs)[v]
  }

  /** The position of the first occurrence of `v`. */
  function FirstIndex(xs: seq<int>, v: int): (i: nat)
    requires v in xs
    ensures i < |xs| && xs[i] == v
    ensures forall j :: 0 <= j < i ==> xs[j] != v
  {
    if xs[0] == v then 0 else 1 + FirstIndex(xs[1..], v)
  }

  lemma {:induction false} FirstIndexIs(xs: seq<int>, v: int, i: nat)
    requires i < |xs| && xs[i] == v
    requires forall j :: 0 <= j < i ==> xs[j] != v
    ensures FirstIndex(xs, v) == i
  {
    if i > 0 {
      FirstIndexIs(xs[1..], v, i - 1);
    }
  }

  /** `a` comes before `b` in `most_common`: it occurs more often, or as often
      and first occurs earlier. */
  ghost predicate Outranks(xs: seq<int>, a: int, b: int)
    requires a in xs && b in xs
  {
    Count(xs, a) > Count(xs, b) || (Count(xs, a) == Count(xs, b) && FirstIndex(xs, a) < FirstIndex(xs, b))
  }

  /** The values of `rem` occur in `xs` and are listed in order of first
      appearance there, so each at most once. */
  ghost predicate InFirstOrder(xs: seq<int>, rem: seq<int>) {
    && (forall v :: v in rem ==> v in xs)
    && (forall a, b :: 0 <= a < b < |rem| ==> FirstIndex(xs, rem[a]) < FirstIndex(xs, rem[b]))
  }

  /** The counter's keys: the distinct values in order of first appearance. */
  function Keys(xs: seq<int>): (r: seq<int>)
    ensures |r| <= |xs|
  {
    if |xs| == 0 then []
    else
      var n := |xs| - 1;
      var p := Keys(xs[..n]);
      if xs[n] in p then p else p + [xs[n]]
  }

  lemma {:induction false} KeysShape(xs: seq<int>)
    ensures forall v :: v in Keys(xs) <==> v in xs
    ensures InFirstOrder(xs, Keys(xs))
  {
    if |xs| > 0 {
      var n := |xs| - 1;
      var front := xs[..n];
      KeysShape(front);
      var p := Keys(front);
      assert xs == front + [xs[n]];
      forall v | v in front
        ensures FirstIndex(front, v) == FirstIndex(xs, v)
      {
        FirstIndexIs(xs, v, FirstIndex(front, v));
      }
      if xs[n] !in p {
        FirstIndexIs(xs, xs[n], n);
      }
    }
  }

  /** The counter's counts. */
  function Tally(xs: seq<int>): (m: map<int, nat>)
  {
    if |xs| == 0 then map[]
    else
      var n := |xs| - 1;
      var m := Tally(xs[..n]);
      m[xs[n] := (if xs[n] in m then m[xs[n]] else 0) + 1]
  }

  lemma {:induction false} TallyCounts(xs: seq<int>)
    ensures forall v :: v in Tally(xs) <==> v in xs
    ensures forall v :: v in Tally(xs) ==> Tally(xs)[v] == Count(xs, v)
  {
    if |xs| > 0 {
      var n := |xs| - 1;
      TallyCounts(xs[..n]);
      assert xs == xs[..n] + [xs[n]];
      assert multiset(xs) == multiset(xs[..n]) + multiset{xs[n]};
    }
  }

  /** `cnt` holds the count in `xs` of every value of `rem`. */
  ghost predicate CountsOf(xs: seq<int>, rem: seq<int>, cnt: map<int, nat>) {
    forall j :: 0 <= j < |rem| ==> rem[j] in cnt && cnt[rem[j]] == Count(xs, rem[j])
  }

  /** The first position holding a greatest count: `max` keeps the first of equals. */
  function BestIndex(rem: seq<int>, cnt: map<int, nat>): (i: nat)
    requires |rem| > 0 && forall j :: 0 <= j < |rem| ==> rem[j] in cnt
    ensures i < |rem|
    ensures forall j :: 0 <= j < |rem| ==> cnt[rem[j]] <= cnt[rem[i]]
    ensures forall j :: 0 <= j < i ==> cnt[rem[j]] < cnt[rem[i]]
  {
    if |rem| == 1 then 0
    else
      assert forall j :: 1 <= j < |rem| ==> rem[j] == rem[1..][j - 1];
      var b := 1 + BestIndex(rem[1..], cnt);
      if cnt[rem[0]] >= cnt[rem[b]] then 0 else b
  }

  /** `rem` without its element at `i`. */
  function Without(rem: seq<int>, i: nat): (r: seq<int>)
    requires i < |rem|
    ensures |r| == |rem| - 1
    ensures forall j :: 0 <= j < i ==> r[j] == rem[j]
    ensures forall j :: i <= j < |r| ==> r[j] == rem[j + 1]
  {
    rem[..i] + rem[i + 1..]
  }

  /** Removing one value keeps the order and the counts, and removes just that value. */
  lemma WithoutKeeps(xs: seq<int>, rem: seq<int>, cnt: map<int, nat>, i: nat)
    requires InFirstOrder(xs, rem) && CountsOf(xs, rem, cnt) && i < |rem|
    ensures InFirstOrder(xs, Without(rem, i)) && CountsOf(xs, Without(rem, i), cnt)
    ensures forall v :: v in Without(rem, i) <==> v in rem && v != rem[i]
  {
    var r := Without(rem, i);
    forall v | v in r
      ensures v in rem && v != rem[i]
    {
      var j :| 0 <= j < |r| && r[j] == v;
      if j < i {
        assert FirstIndex(xs, rem[j]) < FirstIndex(xs, rem[i]);
      } else {
        assert FirstIndex(xs, rem[i]) < FirstIndex(xs, rem[j + 1]);
      }
    }
    forall v | v in rem && v != rem[i]
      ensures v in r
    {
      var j :| 0 <= j < |rem| && rem[j] == v;
      if j < i {
        assert r[j] == v;
      } else {
        assert r[j - 1] == v;
      }
    }
    forall a, b | 0 <= a < b < |r|
      ensures FirstIndex(xs, r[a]) < FirstIndex(xs, r[b])
    {
      var a' := if a < i then a else a + 1;
      var b' := if b < i then b else b + 1;
      assert r[a] == rem[a'] && r[b] == rem[b'];
    }
  }

  /** The best of `rem` outranks every other value of `rem`. */
  lemma BestOutranks(xs: seq<int>, rem: seq<int>, cnt: map<int, nat>)
    requires InFirstOrder(xs, rem) && CountsOf(xs, rem, cnt) && |rem| > 0
    ensures forall j :: 0 <= j < |rem| && j != BestIndex(rem, cnt) ==> Outranks(xs, rem[BestIndex(rem, cnt)], rem[j])
  {
  }

  /** `top` is what `most_common(n)` returns for `xs` when `pool` holds the
      counter's keys: at most `n` values of `pool`, all of them when there are
      fewer, each outranking the later ones and every value left out. */
  ghost predicate IsTopOf(xs: seq<int>, pool: seq<int>, top: seq<int>, n: nat)
    requires forall v :: v in pool ==> v in xs
  {
    && |top| <= n
    && (forall v :: v in top ==> v in pool)
    && (|top| < n ==> forall v :: v in pool ==> v in top)
    && (forall a, b :: 0 <= a < b < |top| ==> Outranks(xs, top[a], top[b]))
    && (forall a, v :: 0 <= a < |top| && v in pool && v !in top ==> Outranks(xs, top[a], v))
  }

  /** Repeatedly takes the best remaining value. */
  function Select(xs: seq<int>, rem: seq<int>, cnt: map<int, nat>, n: nat): (top: seq<int>)
    requires InFirstOrder(xs, rem) && CountsOf(xs, rem, cnt)
    ensures |top| <= n
    decreases n
  {
    if n == 0 || |rem| == 0 then []
    else
      var i := BestIndex(rem, cnt);
      WithoutKeeps(xs, rem, cnt, i);
      [rem[i]] + Select(xs, Without(rem, i), cnt, n - 1)
  }

  /** Putting a value that outranks all of `rest` before a top list of `rest`
      gives a top list of `rest` with that value added. */
  lemma TopCons(xs: seq<int>, rem: seq<int>, rest: seq<int>, best: int, tail: seq<int>, n: nat)
    requires forall v :: v in rem ==> v in xs
    requires n > 0 && best in rem
    requires forall v :: v in rest <==> v in rem && v != best
    requires forall v :: v in rest ==> Outranks(xs, best, v)
    requires IsTopOf(xs, rest, tail, n - 1)
    ensures IsTopOf(xs, rem, [best] + tail, n)
  {
    var top := [best] + tail;
    forall a, b | 0 <= a < b < |top|
      ensures Outranks(xs, top[a], top[b])
    {
      assert top[b] == tail[b - 1];
      if a > 0 {
        assert top[a] == tail[a - 1];
      }
    }
    forall a, v | 0 <= a < |top| && v in rem && v !in top
      ensures Outranks(xs, top[a], v)
    {
      if a > 0 {
        assert top[a] == tail[a - 1];
      }
    }
  }

  lemma {:induction false} SelectIsTop(xs: seq<int>, rem: seq<int>, cnt: map<int, nat>, n: nat)
    requires InFirstOrder(xs, rem) && CountsOf(xs, rem, cnt)
    ensures IsTopOf(xs, rem, Select(xs, rem, cnt, n), n)
    decreases n
  {
    if n > 0 && |rem| > 0 {
      var i := BestIndex(rem, cnt);
      var best := rem[i];
      var rest := Without(rem, i);
      WithoutKeeps(xs, rem, cnt, i);
      BestOutranks(xs, rem, cnt);
      SelectIsTop(xs, rest, cnt, n - 1);
      forall v | v in rest
        ensures Outranks(xs, best, v)
      {
        var j :| 0 <= j < |rem| && rem[j] == v;
      }
      TopCons(xs, rem, rest, best, Select(xs, rest, cnt, n - 1), n);
    }
  }

  /** `Counter(xs).most_common(n)` */
  function MostCommon(xs: seq<int>, n: nat): (top: seq<int>)
    ensures |top| <= n
  {
    var keys := Keys(xs);
    var cnt := Tally(xs);
    KeysShape(xs);
    TallyCounts(xs);
    assert CountsOf(xs, keys, cnt);
    Select(xs, keys, cnt, n)
  }

  /** `most_common(n)` returns the `n` values ranked first, or all of them. */
  lemma MostCommonIsTop(xs: seq<int>, n: nat)
    ensures IsTopOf(xs, xs, MostCommon(xs, n), n)
  {
    var keys := Keys(xs);
    var cnt := Tally(xs);
    KeysShape(xs);
    TallyCounts(xs);
    assert CountsOf(xs, keys, cnt);
    SelectIsTop(xs, keys, cnt, n);
  }

  /** The values `most_common` returns are pairwise different. */
  lemma MostCommonDistinct(xs: seq<int>, n: nat)
    ensures forall a, b :: 0 <= a < b < |MostCommon(xs, n)| ==> MostCommon(xs, n)[a] != MostCommon(xs, n)[b]
  {
    var top := MostCommon(xs, n);
    MostCommonIsTop(xs, n);
    forall a, b | 0 <= a < b < |top|
      ensures top[a] != top[b]
    {
      assert Outranks(xs, top[a], top[b]);
    }
  }

  lemma {:induction false} SelectLength(xs: seq<int>, rem: seq<int>, cnt: map<int, nat>, n: nat)
    requires InFirstOrder(xs, rem) && CountsOf(xs, rem, cnt)
    ensures |Select(xs, rem, cnt, n)| == if n < |rem| then n else |rem|
    decreases n
  {
    if n > 0 && |rem| > 0 {
      var i := BestIndex(rem, cnt);
      WithoutKeeps(xs, rem, cnt, i);
      SelectLength(xs, Without(rem, i), cnt, n - 1);
    }
  }

  /** `most_common(n)` has `n` values, or as many as there are different values. */
  lemma MostCommonLength(xs: seq<int>, n: nat)
    ensures |MostCommon(xs, n)| == if n < |Keys(xs)| then n else |Keys(xs)|
  {
    var keys := Keys(xs);
    var cnt := Tally(xs);
    KeysShape(xs);
    TallyCounts(xs);
    assert CountsOf(xs, keys, cnt);
    SelectLength(xs, keys, cnt, n);
  }

  /** How many different values there are, up to three. */
  lemma KeysCount(xs: seq<int>)
    ensures |Keys(xs)| >= 1 <==> |xs| > 0
    ensures |Keys(xs)| >= 2 <==> exists i, j :: 0 <= i < |xs| && 0 <= j < |xs| && xs[i] != xs[j]
    ensures |Keys(xs)| >= 3 <==>
              exists i, j, k :: 0 <= i < |xs| && 0 <= j < |xs| && 0 <= k < |xs| &&
                xs[i] != xs[j] && xs[j] != xs[k] && xs[i] != xs[k]
  {
    KeysShape(xs);
    if |xs| > 0 {
      var v := xs[0];
      assert v in xs;
      assert v in Keys(xs) <==> v in xs;
    }
    KeysTwo(xs);
    KeysThree(xs);
  }

  lemma KeysTwo(xs: seq<int>)
    ensures |Keys(xs)| >= 2 <==> exists i, j :: 0 <= i < |xs| && 0 <= j < |xs| && xs[i] != xs[j]
  {
    var keys := Keys(xs);
    KeysShape(xs);
    if |keys| >= 2 {
      var p, q := FirstIndex(xs, keys[0]), FirstIndex(xs, keys[1]);
      assert p < q;
      assert xs[p] != xs[q];
    }
    if exists i, j :: 0 <= i < |xs| && 0 <= j < |xs| && xs[i] != xs[j] {
      var i, j :| 0 <= i < |xs| && 0 <= j < |xs| && xs[i] != xs[j];
      var a := KeyPosition(xs, xs[i]);
      var b := KeyPosition(xs, xs[j]);
      assert a != b;
    }
  }

  lemma KeysThree(xs: seq<int>)
    ensures |Keys(xs)| >= 3 <==>
              exists i, j, k :: 0 <= i < |xs| && 0 <= j < |xs| && 0 <= k < |xs| &&
                xs[i] != xs[j] && xs[j] != xs[k] && xs[i] != xs[k]
  {
    if |Keys(xs)| >= 3 {
      var p, q, r := ThreeKeysGiveValues(xs);
    }
    if exists i, j, k :: 0 <= i < |xs| && 0 <= j < |xs| && 0 <= k < |xs| &&
         xs[i] != xs[j] && xs[j] != xs[k] && xs[i] != xs[k] {
      var i, j, k :| 0 <= i < |xs| && 0 <= j < |xs| && 0 <= k < |xs| &&
         xs[i] != xs[j] && xs[j] != xs[k] && xs[i] != xs[k];
      ThreeValuesGiveKeys(xs, i, j, k);
    }
  }

  /** Three keys are three pairwise different values of the list. */
  lemma ThreeKeysGiveValues(xs: seq<int>) returns (p: nat, q: nat, r: nat)
    requires |Keys(xs)| >= 3
    ensures p < |xs| && q < |xs| && r < |xs|
    ensures xs[p] != xs[q] && xs[q] != xs[r] && xs[p] != xs[r]
  {
    var keys := Keys(xs);
    KeysShape(xs);
    p, q, r := FirstIndex(xs, keys[0]), FirstIndex(xs, keys[1]), FirstIndex(xs, keys[2]);
    assert p < q < r;
  }

  /** Three pairwise different values of the list are three different keys. */
  lemma ThreeValuesGiveKeys(xs: seq<int>, i: nat, j: nat, k: nat)
    requires i < |xs| && j < |xs| && k < |xs|
    requires xs[i] != xs[j] && xs[j] != xs[k] && xs[i] != xs[k]
    ensures |Keys(xs)| >= 3
  {
    var a := KeyPosition(xs, xs[i]);
    var b := KeyPosition(xs, xs[j]);
    var c := KeyPosition(xs, xs[k]);
    assert a != b && b != c && a != c;
  }

  lemma KeyPosition(xs: seq<int>, v: int) returns (a: nat)
    requires v in xs
    ensures a < |Keys(xs)| && Keys(xs)[a] == v
  {
    KeysShape(xs);
    assert v in Keys(xs);
    a :| 0 <= a < |Keys(xs)| && Keys(xs)[a] == v;
  }
}
