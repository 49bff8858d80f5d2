/** Level assignment (`determine_heading_levels`): the three most frequent
    candidate sizes, largest first, become H1, H2 and H3; candidates of those
    sizes are emitted in order, each (text, page) pair once. */
module Levels {
  import opened Layout
  import Counting
  import Dedup

  function Sizes(hs: seq<Candidate>): (r: seq<int>)
    ensures |r| == |hs|
    ensures forall i :: 0 <= i < |hs| ==> r[i] == hs[i].sizeTenths
  {
    seq(|hs|, i requires 0 <= i < |hs| => hs[i].sizeTenths)
  }

  /** Largest first, each value strictly greater than the next. */
  predicate StrictlyDescending(s: seq<int>) {
    forall a, b :: 0 <= a < b < |s| ==> s[a] > s[b]
  }

  /** No value occurs twice. */
  predicate NoRepeats(s: seq<int>) {
    forall a, b :: 0 <= a < b < |s| ==> s[a] != s[b]
  }

  /** Puts `x` in front of the first value it exceeds. */
  function Insert(x: int, s: seq<int>): (r: seq<int>)
    ensures |r| == |s| + 1
  {
    if |s| == 0 || x > s[0] then [x] + s else [s[0]] + Insert(x, s[1..])
  }

  lemma {:induction false} InsertKeepsOrder(x: int, s: seq<int>)
    requires StrictlyDescending(s) && x !in s
    ensures StrictlyDescending(Insert(x, s))
    ensures forall v :: v in Insert(x, s) <==> v == x || v in s
  {
    if |s| > 0 && x <= s[0] {
      var rest := Insert(x, s[1..]);
      InsertKeepsOrder(x, s[1..]);
      assert forall v :: v in s <==> v == s[0] || v in s[1..];
      var r := [s[0]] + rest;
      assert r == Insert(x, s);
      forall a, b | 0 <= a < b < |r|
        ensures r[a] > r[b]
      {
        assert r[b] == rest[b - 1] && rest[b - 1] in rest;
        if a > 0 {
          assert r[a] == rest[a - 1];
        }
      }
    } else {
      var r := [x] + s;
      forall a, b | 0 <= a < b < |r|
        ensures r[a] > r[b]
      {
        assert r[b] == s[b - 1];
        if a > 0 {
          assert r[a] == s[a - 1];
        }
      }
    }
  }

  /** `list.sort(reverse=True)`, as an insertion sort. */
  function SortDescending(s: seq<int>): (r: seq<int>)
    ensures |r| == |s|
  {
    if |s| == 0 then [] else Insert(s[0], SortDescending(s[1..]))
  }

  /** Sorting values that are pairwise different gives the same values, largest first. */
  lemma {:induction false} SortDescendingSorts(s: seq<int>)
    requires NoRepeats(s)
    ensures StrictlyDescending(SortDescending(s))
    ensures forall v :: v in SortDescending(s) <==> v in s
  {
    if |s| > 0 {
      assert forall v :: v in s <==> v == s[0] || v in s[1..];
      SortDescendingSorts(s[1..]);
      InsertKeepsOrder(s[0], SortDescending(s[1..]));
    }
  }

  /** `size_to_level`, built from the sorted common sizes as process_pdfs.py lines 62-67 do. */
  function LevelTable(sorted: seq<int>): (m: map<int, Level>)
  {
    var m1 := if |sorted| > 0 then map[sorted[0] := H1] else map[];
    var m2 := if |sorted| > 1 then m1[sorted[1] := H2] else m1;
    if |sorted| > 2 then m2[sorted[2] := H3] else m2
  }

  function Rank(l: Level): nat {
    match l
    case H1 => 0
    case H2 => 1
    case H3 => 2
  }

  /** The level table of three or fewer strictly descending sizes: the n-th
      largest size gets the n-th level, and no other size gets one. */
  lemma LevelTableShape(sorted: seq<int>)
    requires StrictlyDescending(sorted) && |sorted| <= 3
    ensures forall v :: v in LevelTable(sorted) <==> v in sorted
    ensures forall a :: 0 <= a < |sorted| ==> Rank(LevelTable(sorted)[sorted[a]]) == a
  {
  }

  /** The sizes that get a level: the common sizes, largest first. */
  function CommonSizes(hs: seq<Candidate>): (r: seq<int>)
    ensures StrictlyDescending(r)
    ensures forall v :: v in r <==> v in Counting.MostCommon(Sizes(hs), 3)
    ensures |r| == |Counting.MostCommon(Sizes(hs), 3)|
  {
    var top := Counting.MostCommon(Sizes(hs), 3);
    Counting.MostCommonDistinct(Sizes(hs), 3);
    SortDescendingSorts(top);
    SortDescending(top)
  }

  /** The emission loop with `used` passed along: a (text, page) key is
      recorded only when its candidate has a level. */
  function Emit(hs: seq<Candidate>, table: map<int, Level>, used: set<(string, int)>): (r: seq<Entry>)
    ensures |r| <= |hs|
  {
    if |hs| == 0 then []
    else
      var h := hs[0];
      var key := (h.text, h.page);
      if h.sizeTenths in table && key !in used then
        [Entry(table[h.sizeTenths], h.text, h.page)] + Emit(hs[1..], table, used + {key})
      else
        Emit(hs[1..], table, used)
  }

  /** `determine_heading_levels(headings)` */
  function DetermineLevels(hs: seq<Candidate>): (r: seq<Entry>)
    ensures |r| <= |hs|
  {
    Emit(hs, LevelTable(CommonSizes(hs)), {})
  }

  // The emission described position by position.

  ghost function Mapped(hs: seq<Candidate>, table: map<int, Level>): seq<bool> {
    seq(|hs|, i requires 0 <= i < |hs| => hs[i].sizeTenths in table)
  }

  ghost function KeysOf(hs: seq<Candidate>): seq<(string, int)> {
    seq(|hs|, i requires 0 <= i < |hs| => (hs[i].text, hs[i].page))
  }

  ghost function AllKept(n: nat): seq<bool> {
    seq(n, i => true)
  }

  /** The positions of the emitted candidates, in order. */
  ghost function Emitted(hs: seq<Candidate>, table: map<int, Level>, k: nat): seq<nat>
    requires k <= |hs|
  {
    Dedup.Chosen(Mapped(hs, table), KeysOf(hs), AllKept(|hs|), k)
  }

  ghost predicate EntriesFor(hs: seq<Candidate>, table: map<int, Level>, idx: seq<nat>) {
    forall a :: 0 <= a < |idx| ==> idx[a] < |hs| && hs[idx[a]].sizeTenths in table
  }

  ghost function EntriesAt(hs: seq<Candidate>, table: map<int, Level>, idx: seq<nat>): seq<Entry>
    requires EntriesFor(hs, table, idx)
  {
    if |idx| == 0 then []
    else
      var h := hs[idx[0]];
      [Entry(table[h.sizeTenths], h.text, h.page)] + EntriesAt(hs, table, idx[1..])
  }

  lemma {:induction false} EntriesAtShape(hs: seq<Candidate>, table: map<int, Level>, idx: seq<nat>)
    requires EntriesFor(hs, table, idx)
    ensures |EntriesAt(hs, table, idx)| == |idx|
    ensures forall a :: 0 <= a < |idx| ==>
              EntriesAt(hs, table, idx)[a]
                == Entry(table[hs[idx[a]].sizeTenths], hs[idx[a]].text, hs[idx[a]].page)
  {
    if |idx| > 0 {
      EntriesAtShape(hs, table, idx[1..]);
      var r := EntriesAt(hs, table, idx);
      forall a | 0 < a < |idx|
        ensures r[a] == Entry(table[hs[idx[a]].sizeTenths], hs[idx[a]].text, hs[idx[a]].page)
      {
        assert idx[1..][a - 1] == idx[a];
      }
    }
  }

  lemma EmittedValid(hs: seq<Candidate>, table: map<int, Level>, k: nat)
    requires k <= |hs|
    ensures EntriesFor(hs, table, Emitted(hs, table, k))
  {
    var c := Emitted(hs, table, k);
    Dedup.ChosenShape(Mapped(hs, table), KeysOf(hs), AllKept(|hs|), k);
    forall a | 0 <= a < |c|
      ensures hs[c[a]].sizeTenths in table
    {
      assert c[a] in c;
    }
  }

  /** From position `k` on, the loop with the keys used before `k` emits
      exactly the first occurrences, among candidates with a level, of their keys. */
  lemma {:induction false} EmitFrom(hs: seq<Candidate>, table: map<int, Level>, k: nat)
    requires k <= |hs|
    ensures EntriesFor(hs, table, Emitted(hs, table, k))
    ensures Emit(hs[k..], table, Dedup.SeenBefore(Mapped(hs, table), KeysOf(hs), k))
            == EntriesAt(hs, table, Emitted(hs, table, k))
    decreases |hs| - k
  {
    EmittedValid(hs, table, k);
    if k < |hs| {
      var elig, keys, keep := Mapped(hs, table), KeysOf(hs), AllKept(|hs|);
      Dedup.SeenStep(elig, keys, k);
      EmitFrom(hs, table, k + 1);
      EmittedValid(hs, table, k + 1);
      assert hs[k..][0] == hs[k];
      assert hs[k..][1..] == hs[k + 1..];
      var rest := Emitted(hs, table, k + 1);
      var used := Dedup.SeenBefore(elig, keys, k);
      var h := hs[k];
      assert elig[k] == (h.sizeTenths in table) && keys[k] == (h.text, h.page) && keep[k];
      var tail := Emit(hs[k + 1..], table, Dedup.SeenBefore(elig, keys, k + 1));
      if h.sizeTenths !in table {
        assert Dedup.SeenBefore(elig, keys, k + 1) == used;
        assert Emit(hs[k..], table, used) == tail;
        assert Emitted(hs, table, k) == [] + rest == rest;
      } else if (h.text, h.page) in used {
        assert Dedup.SeenBefore(elig, keys, k + 1) == used + {(h.text, h.page)} == used;
        assert Emit(hs[k..], table, used) == tail;
        assert Emitted(hs, table, k) == [] + rest == rest;
      } else {
        assert Emit(hs[k..], table, used) == [Entry(table[h.sizeTenths], h.text, h.page)] + tail;
        assert Emitted(hs, table, k) == [k] + rest;
        assert ([k] + rest)[1..] == rest;
      }
    }
  }

  /** The outline is the subsequence of the candidates with a level, minus any
      whose (text, page) key an earlier such candidate already had; each entry
      copies its candidate's text and page and takes its size's level. */
  lemma OutlineCharacterized(hs: seq<Candidate>)
    ensures EntriesFor(hs, LevelTable(CommonSizes(hs)), Emitted(hs, LevelTable(CommonSizes(hs)), 0))
    ensures DetermineLevels(hs) == EntriesAt(hs, LevelTable(CommonSizes(hs)), Emitted(hs, LevelTable(CommonSizes(hs)), 0))
    ensures forall a, b :: 0 <= a < b < |Emitted(hs, LevelTable(CommonSizes(hs)), 0)| ==>
              Emitted(hs, LevelTable(CommonSizes(hs)), 0)[a] < Emitted(hs, LevelTable(CommonSizes(hs)), 0)[b]
    ensures forall i :: 0 <= i < |hs| ==>
              (i in Emitted(hs, LevelTable(CommonSizes(hs)), 0) <==> FirstWithLevel(hs, LevelTable(CommonSizes(hs)), i))
  {
    var table := LevelTable(CommonSizes(hs));
    EmitFrom(hs, table, 0);
    assert hs[0..] == hs;
    assert Dedup.SeenBefore(Mapped(hs, table), KeysOf(hs), 0) == {};
    EmittedMembers(hs, table);
  }

  /** Candidate `i` has a level, and no earlier candidate with a level has its
      (text, page) key. */
  ghost predicate FirstWithLevel(hs: seq<Candidate>, table: map<int, Level>, i: int)
    requires 0 <= i < |hs|
  {
    && hs[i].sizeTenths in table
    && forall j :: 0 <= j < i && hs[j].sizeTenths in table ==> (hs[j].text, hs[j].page) != (hs[i].text, hs[i].page)
  }

  lemma EmittedMembers(hs: seq<Candidate>, table: map<int, Level>)
    ensures forall a, b :: 0 <= a < b < |Emitted(hs, table, 0)| ==> Emitted(hs, table, 0)[a] < Emitted(hs, table, 0)[b]
    ensures forall i :: 0 <= i < |hs| ==> (i in Emitted(hs, table, 0) <==> FirstWithLevel(hs, table, i))
  {
    var elig, keys, keep := Mapped(hs, table), KeysOf(hs), AllKept(|hs|);
    Dedup.ChosenShape(elig, keys, keep, 0);
    assert forall j :: 0 <= j < |hs| ==> elig[j] == (hs[j].sizeTenths in table);
    assert forall j :: 0 <= j < |hs| ==> keys[j] == (hs[j].text, hs[j].page);
    assert forall j :: 0 <= j < |hs| ==> keep[j];
  }

  /** Only the three most frequent sizes get a level, as `most_common(3)` ranks them. */
  lemma LevelsForTopThree(hs: seq<Candidate>)
    ensures forall v :: v in LevelTable(CommonSizes(hs)) <==> v in Counting.MostCommon(Sizes(hs), 3)
    ensures Counting.IsTopOf(Sizes(hs), Sizes(hs), Counting.MostCommon(Sizes(hs), 3), 3)
  {
    LevelTableShape(CommonSizes(hs));
    Counting.MostCommonIsTop(Sizes(hs), 3);
  }

  /** A larger size gets a higher level (H1 above H2 above H3), and the other
      way round. */
  lemma LevelsFollowSizes(hs: seq<Candidate>)
    ensures forall u, v :: u in LevelTable(CommonSizes(hs)) && v in LevelTable(CommonSizes(hs)) ==>
              (Rank(LevelTable(CommonSizes(hs))[u]) < Rank(LevelTable(CommonSizes(hs))[v]) <==> u > v)
  {
    var sorted := CommonSizes(hs);
    var table := LevelTable(sorted);
    LevelTableShape(sorted);
    forall u, v | u in table && v in table
      ensures Rank(table[u]) < Rank(table[v]) <==> u > v
    {
      var a :| 0 <= a < |sorted| && sorted[a] == u;
      var b :| 0 <= b < |sorted| && sorted[b] == v;
      assert Rank(table[u]) == a && Rank(table[v]) == b;
    }
  }

  /** The level of rank n is used exactly when the candidates have more than
      n different sizes. */
  lemma LevelsByDistinctSizes(hs: seq<Candidate>, l: Level)
    ensures (exists u :: u in LevelTable(CommonSizes(hs)) && LevelTable(CommonSizes(hs))[u] == l) <==>
              Rank(l) < |Counting.Keys(Sizes(hs))|
  {
    Counting.MostCommonLength(Sizes(hs), 3);
    LevelPresentAt(CommonSizes(hs), l);
  }

  /** Level H1 is used when there is any candidate, H2 when there are two
      different sizes, H3 when there are three. */
  lemma LevelsPresent(hs: seq<Candidate>)
    ensures (exists u :: u in LevelTable(CommonSizes(hs)) && LevelTable(CommonSizes(hs))[u] == H1) <==> |hs| > 0
    ensures (exists u :: u in LevelTable(CommonSizes(hs)) && LevelTable(CommonSizes(hs))[u] == H2) <==>
              exists i, j :: 0 <= i < |hs| && 0 <= j < |hs| && hs[i].sizeTenths != hs[j].sizeTenths
    ensures (exists u :: u in LevelTable(CommonSizes(hs)) && LevelTable(CommonSizes(hs))[u] == H3) <==>
              exists i, j, k :: 0 <= i < |hs| && 0 <= j < |hs| && 0 <= k < |hs| &&
                hs[i].sizeTenths != hs[j].sizeTenths && hs[j].sizeTenths != hs[k].sizeTenths &&
                hs[i].sizeTenths != hs[k].sizeTenths
  {
    LevelsByDistinctSizes(hs, H1);
    LevelsByDistinctSizes(hs, H2);
    LevelsByDistinctSizes(hs, H3);
    Counting.KeysCount(Sizes(hs));
    TwoSizes(hs);
    ThreeSizes(hs);
  }

  lemma TwoSizes(hs: seq<Candidate>)
    ensures (exists i, j :: 0 <= i < |hs| && 0 <= j < |hs| && hs[i].sizeTenths != hs[j].sizeTenths) <==>
            (exists i, j :: 0 <= i < |Sizes(hs)| && 0 <= j < |Sizes(hs)| && Sizes(hs)[i] != Sizes(hs)[j])
  {
    var xs := Sizes(hs);
    if exists i, j :: 0 <= i < |xs| && 0 <= j < |xs| && xs[i] != xs[j] {
      var i, j :| 0 <= i < |xs| && 0 <= j < |xs| && xs[i] != xs[j];
      assert hs[i].sizeTenths != hs[j].sizeTenths;
    }
  }

  lemma ThreeSizes(hs: seq<Candidate>)
    ensures (exists i, j, k :: 0 <= i < |hs| && 0 <= j < |hs| && 0 <= k < |hs| &&
               hs[i].sizeTenths != hs[j].sizeTenths && hs[j].sizeTenths != hs[k].sizeTenths &&
               hs[i].sizeTenths != hs[k].sizeTenths) <==>
            (exists i, j, k :: 0 <= i < |Sizes(hs)| && 0 <= j < |Sizes(hs)| && 0 <= k < |Sizes(hs)| &&
               Sizes(hs)[i] != Sizes(hs)[j] && Sizes(hs)[j] != Sizes(hs)[k] && Sizes(hs)[i] != Sizes(hs)[k])
  {
    var xs := Sizes(hs);
    if exists i, j, k :: 0 <= i < |xs| && 0 <= j < |xs| && 0 <= k < |xs| &&
         xs[i] != xs[j] && xs[j] != xs[k] && xs[i] != xs[k] {
      var i, j, k :| 0 <= i < |xs| && 0 <= j < |xs| && 0 <= k < |xs| &&
         xs[i] != xs[j] && xs[j] != xs[k] && xs[i] != xs[k];
      assert hs[i].sizeTenths != hs[j].sizeTenths && hs[j].sizeTenths != hs[k].sizeTenths &&
             hs[i].sizeTenths != hs[k].sizeTenths;
    }
  }

  /** A level is in the table exactly when there are more common sizes than its rank. */
  lemma LevelPresentAt(sorted: seq<int>, l: Level)
    requires StrictlyDescending(sorted) && |sorted| <= 3
    ensures (exists u :: u in LevelTable(sorted) && LevelTable(sorted)[u] == l) <==> Rank(l) < |sorted|
  {
    var table := LevelTable(sorted);
    LevelTableShape(sorted);
    if Rank(l) < |sorted| {
      var u := sorted[Rank(l)];
      assert u in table && Rank(table[u]) == Rank(l);
    }
    if exists u :: u in table && table[u] == l {
      var u :| u in table && table[u] == l;
      var a :| 0 <= a < |sorted| && sorted[a] == u;
    }
  }

  /** No two outline entries share a (text, page) key. */
  lemma OutlineKeysUnique(hs: seq<Candidate>)
    ensures forall a, b :: 0 <= a < b < |DetermineLevels(hs)| ==>
              (DetermineLevels(hs)[a].text, DetermineLevels(hs)[a].page)
                != (DetermineLevels(hs)[b].text, DetermineLevels(hs)[b].page)
  {
    var table := LevelTable(CommonSizes(hs));
    var idx := Emitted(hs, table, 0);
    OutlineCharacterized(hs);
    EntriesAtShape(hs, table, idx);
    Dedup.ChosenKeysDistinct(Mapped(hs, table), KeysOf(hs), AllKept(|hs|));
    var r := DetermineLevels(hs);
    forall a, b | 0 <= a < b < |r|
      ensures (r[a].text, r[a].page) != (r[b].text, r[b].page)
    {
      assert KeysOf(hs)[idx[a]] != KeysOf(hs)[idx[b]];
    }
  }

  /** Each entry copies the text and page of a candidate whose size has a
      level, and takes that level. */
  lemma OutlineFromCandidates(hs: seq<Candidate>)
    ensures forall a :: 0 <= a < |DetermineLevels(hs)| ==>
              exists i :: 0 <= i < |hs| && hs[i].sizeTenths in LevelTable(CommonSizes(hs)) &&
                DetermineLevels(hs)[a]
                  == Entry(LevelTable(CommonSizes(hs))[hs[i].sizeTenths], hs[i].text, hs[i].page)
  {
    var table := LevelTable(CommonSizes(hs));
    var idx := Emitted(hs, table, 0);
    OutlineCharacterized(hs);
    EntriesAtShape(hs, table, idx);
    var r := DetermineLevels(hs);
    forall a | 0 <= a < |r|
      ensures exists i :: 0 <= i < |hs| && hs[i].sizeTenths in table &&
                r[a] == Entry(table[hs[i].sizeTenths], hs[i].text, hs[i].page)
    {
      var i := idx[a];
    }
  }

  /** The outline as positions in the input: increasing, and each entry taken
      from the candidate at its position. */
  lemma OutlinePositions(hs: seq<Candidate>) returns (idx: seq<nat>)
    ensures |idx| == |DetermineLevels(hs)|
    ensures forall a :: 0 <= a < |idx| ==> idx[a] < |hs|
    ensures forall a, b :: 0 <= a < b < |idx| ==> idx[a] < idx[b]
    ensures forall a :: 0 <= a < |idx| ==>
              DetermineLevels(hs)[a].text == hs[idx[a]].text && DetermineLevels(hs)[a].page == hs[idx[a]].page
  {
    var table := LevelTable(CommonSizes(hs));
    idx := Emitted(hs, table, 0);
    OutlineCharacterized(hs);
    EntriesAtShape(hs, table, idx);
  }

  /** Emission keeps the input order: pages that lie in a range and do not
      decrease along the candidates do the same along the outline. */
  lemma OutlinePages(hs: seq<Candidate>, lo: int, hi: int)
    requires forall i :: 0 <= i < |hs| ==> lo <= hs[i].page <= hi
    requires forall i, j :: 0 <= i <= j < |hs| ==> hs[i].page <= hs[j].page
    ensures forall a :: 0 <= a < |DetermineLevels(hs)| ==> lo <= DetermineLevels(hs)[a].page <= hi
    ensures forall a, b :: 0 <= a <= b < |DetermineLevels(hs)| ==>
              DetermineLevels(hs)[a].page <= DetermineLevels(hs)[b].page
  {
    var idx := OutlinePositions(hs);
    var r := DetermineLevels(hs);
    forall a, b | 0 <= a <= b < |r|
      ensures r[a].page <= r[b].page
    {
      assert idx[a] <= idx[b];
    }
  }
}
