/** First-seen de-duplication stated over positions rather than over a
    running "seen" set. Both de-duplicating loops of the heading inference
    (raw line texts, and (text, page) keys of the outline) are proved equal to
    this description. A sequence position has an eligibility flag, a key and
    a keep flag: a position is taken when it is eligible, no earlier eligible
    position has the same key, and it is kept. An eligible position that is
    not kept still blocks later positions with its key. */
module Dedup {

  ghost predicate Aligned<K>(elig: seq<bool>, keys: seq<K>, keep: seq<bool>) {
    |elig| == |keys| == |keep|
  }

  /** Position `i` is eligible and no earlier eligible position has its key. */
  ghost predicate FirstOccurrence<K>(elig: seq<bool>, keys: seq<K>, i: int)
    requires |elig| == |keys|
  {
    && 0 <= i < |keys|
    && elig[i]
    && forall j :: 0 <= j < i && elig[j] ==> keys[j] != keys[i]
  }

  /** The positions from `k` on that are taken, in increasing order. */
  ghost function Chosen<K>(elig: seq<bool>, keys: seq<K>, keep: seq<bool>, k: nat): seq<nat>
    requires Aligned(elig, keys, keep) && k <= |keys|
    decreases |keys| - k
  {
    if k == |keys| then []
    else (if FirstOccurrence(elig, keys, k) && keep[k] then [k] else []) + Chosen(elig, keys, keep, k + 1)
  }

  /** The keys of the eligible positions before `k`: the "seen" set a loop holds at `k`. */
  ghost function SeenBefore<K>(elig: seq<bool>, keys: seq<K>, k: nat): set<K>
    requires |elig| == |keys| && k <= |keys|
  {
    set j | 0 <= j < k && elig[j] :: keys[j]
  }

  lemma SeenStep<K>(elig: seq<bool>, keys: seq<K>, k: nat)
    requires |elig| == |keys| && k < |keys|
    ensures FirstOccurrence(elig, keys, k) <==> elig[k] && keys[k] !in SeenBefore(elig, keys, k)
    ensures SeenBefore(elig, keys, k + 1) == SeenBefore(elig, keys, k) + (if elig[k] then {keys[k]} else {})
  {
    if elig[k] && keys[k] in SeenBefore(elig, keys, k) {
      var j :| 0 <= j < k && elig[j] && keys[j] == keys[k];
    }
  }

  /** `Chosen` lists, in increasing order, exactly the taken positions. */
  lemma {:induction false} ChosenShape<K>(elig: seq<bool>, keys: seq<K>, keep: seq<bool>, k: nat)
    requires Aligned(elig, keys, keep) && k <= |keys|
    ensures forall a :: 0 <= a < |Chosen(elig, keys, keep, k)| ==> k <= Chosen(elig, keys, keep, k)[a] < |keys|
    ensures forall a, b :: 0 <= a < b < |Chosen(elig, keys, keep, k)| ==>
              Chosen(elig, keys, keep, k)[a] < Chosen(elig, keys, keep, k)[b]
    ensures forall i :: k <= i < |keys| ==>
              (i in Chosen(elig, keys, keep, k) <==> FirstOccurrence(elig, keys, i) && keep[i])
    decreases |keys| - k
  {
    if k < |keys| {
      ChosenShape(elig, keys, keep, k + 1);
    }
  }

  /** No two taken positions share a key. */
  lemma ChosenKeysDistinct<K>(elig: seq<bool>, keys: seq<K>, keep: seq<bool>)
    requires Aligned(elig, keys, keep)
    ensures forall a :: 0 <= a < |Chosen(elig, keys, keep, 0)| ==> Chosen(elig, keys, keep, 0)[a] < |keys|
    ensures forall a, b :: 0 <= a < b < |Chosen(elig, keys, keep, 0)| ==>
              keys[Chosen(elig, keys, keep, 0)[a]] != keys[Chosen(elig, keys, keep, 0)[b]]
  {
    var c := Chosen(elig, keys, keep, 0);
    ChosenShape(elig, keys, keep, 0);
    forall a, b | 0 <= a < b < |c|
      ensures keys[c[a]] != keys[c[b]]
    {
      assert c[a] in c && c[b] in c;
      assert FirstOccurrence(elig, keys, c[a]) && FirstOccurrence(elig, keys, c[b]);
    }
  }
}
