/** The ranking step both `predict` methods share: sort the record indices by
    descending similarity (Python's sort is stable, so equal scores keep index
    order), walk them while collecting a set `seen` of disease names, emit a record
    the first time its disease shows up, and stop as soon as `len(results) >= top_n`.
    The similarity scores themselves (TF-IDF and cosine similarity) are an input.
    Both classifiers build their result entries from the records this way. */
module Ranking {
  import opened Dataset

  /** Record `i` comes before record `j` in
      `sorted(enumerate(scores), key=lambda x: x[1], reverse=True)`: the higher score
      first, equal scores in index order. */
  predicate RanksBefore(scores: seq<real>, i: nat, j: nat)
    requires i < |scores| && j < |scores|
  {
    scores[i] > scores[j] || (scores[i] == scores[j] && i < j)
  }

  /** The elements of `order` are indices of `scores` listed best-ranked first. */
  ghost predicate RankSorted(scores: seq<real>, order: seq<nat>)
  {
    && (forall k :: 0 <= k < |order| ==> order[k] < |scores|)
    && (forall k, l :: 0 <= k < l < |order| ==> RanksBefore(scores, order[k], order[l]))
  }

  /** `order` lists every index of `scores` exactly once, best-ranked first. */
  ghost predicate IsRankOrder(scores: seq<real>, order: seq<nat>)
  {
    && |order| == |scores|
    && RankSorted(scores, order)
    && (forall i :: 0 <= i < |scores| ==> i in order)
  }

  /** Inserts index `i`, larger than every index already placed, behind every index
      whose score is at least its own. */
  function InsertRanked(scores: seq<real>, order: seq<nat>, i: nat): (r: seq<nat>)
    requires i < |scores|
    requires forall k :: 0 <= k < |order| ==> order[k] < i
    requires RankSorted(scores, order)
    ensures |r| == |order| + 1
    ensures forall x :: x in r <==> x in order || x == i
    ensures forall k :: 0 <= k < |r| ==> r[k] <= i
    ensures RankSorted(scores, r)
  {
    if order == [] then [i]
    else if scores[order[0]] >= scores[i] then
      var tail := order[1..];
      RankSortedTail(scores, order);
      var rest := InsertRanked(scores, tail, i);
      forall k | 0 <= k < |rest|
        ensures RanksBefore(scores, order[0], rest[k])
      {
        assert rest[k] in rest;
        if rest[k] != i {
          var m :| 0 <= m < |tail| && tail[m] == rest[k];
          assert order[m + 1] == rest[k];
        }
      }
      RankSortedCons(scores, order[0], rest);
      [order[0]] + rest
    else
      forall k | 0 <= k < |order|
        ensures RanksBefore(scores, i, order[k])
      {
        assert scores[order[k]] <= scores[order[0]];
      }
      RankSortedCons(scores, i, order);
      [i] + order
  }

  /** The tail of a rank-sorted list is rank-sorted. */
  lemma RankSortedTail(scores: seq<real>, order: seq<nat>)
    requires order != []
    requires RankSorted(scores, order)
    ensures RankSorted(scores, order[1..])
  {
    var tail := order[1..];
    forall k, l | 0 <= k < l < |tail|
      ensures RanksBefore(scores, tail[k], tail[l])
    {
      assert tail[k] == order[k + 1] && tail[l] == order[l + 1];
    }
  }

  /** An index ranked before every element of a rank-sorted list can go in front. */
  lemma RankSortedCons(scores: seq<real>, x: nat, rest: seq<nat>)
    requires x < |scores|
    requires RankSorted(scores, rest)
    requires forall k :: 0 <= k < |rest| ==> RanksBefore(scores, x, rest[k])
    ensures RankSorted(scores, [x] + rest)
  {
    var r := [x] + rest;
    forall k, l | 0 <= k < l < |r|
      ensures RanksBefore(scores, r[k], r[l])
    {
      assert r[l] == rest[l - 1];
      if k > 0 {
        assert r[k] == rest[k - 1];
      }
    }
  }

  /** The first `n` indices in ranking order. */
  function RankOrderOf(scores: seq<real>, n: nat): (order: seq<nat>)
    requires n <= |scores|
    ensures |order| == n
    ensures forall k :: 0 <= k < n ==> order[k] < n
    ensures forall i :: 0 <= i < n ==> i in order
    ensures RankSorted(scores, order)
  {
    if n == 0 then [] else InsertRanked(scores, RankOrderOf(scores, n - 1), n - 1)
  }

  /** The index order of `sorted(enumerate(scores), key=..., reverse=True)`. */
  function RankOrder(scores: seq<real>): (order: seq<nat>)
    ensures IsRankOrder(scores, order)
  {
    RankOrderOf(scores, |scores|)
  }

  /** Two rank-sorted lists of the same indices are the same list: the stable sort by
      descending score has exactly one outcome, so `RankOrder` is it. */
  lemma {:induction false} RankSortedIsUnique(scores: seq<real>, a: seq<nat>, b: seq<nat>)
    requires RankSorted(scores, a) && RankSorted(scores, b)
    requires forall x :: x in a <==> x in b
    ensures a == b
    decreases |a|
  {
    assert a != [] ==> a[0] in b;
    assert b != [] ==> b[0] in a;
    if a != [] && b != [] {
      if a[0] != b[0] {
        assert false;
      }
      forall x
        ensures x in a[1..] <==> x in b[1..]
      {
        if x in a[1..] {
          var k :| 1 <= k < |a| && a[k] == x;
          assert x in b && x != b[0];
          var l :| 0 <= l < |b| && b[l] == x;
          assert b[1..][l - 1] == x;
        }
        if x in b[1..] {
          var l :| 1 <= l < |b| && b[l] == x;
          assert x in a && x != a[0];
          var k :| 0 <= k < |a| && a[k] == x;
          assert a[1..][k - 1] == x;
        }
      }
      RankSortedIsUnique(scores, a[1..], b[1..]);
      assert a == [a[0]] + a[1..] && b == [b[0]] + b[1..];
    }
  }

  /** Every stable descending sort of the scores yields `RankOrder(scores)`. */
  lemma RankOrderIsTheSort(scores: seq<real>, order: seq<nat>)
    requires IsRankOrder(scores, order)
    ensures order == RankOrder(scores)
  {
    var r := RankOrder(scores);
    forall x
      ensures x in order <==> x in r
    {
      if x in order {
        var k :| 0 <= k < |order| && order[k] == x;
        assert x in r;
      }
      if x in r {
        var k :| 0 <= k < |r| && r[k] == x;
        assert x in order;
      }
    }
    RankSortedIsUnique(scores, order, r);
  }

  /** The disease names met along `order`. */
  function NamesAlong(names: seq<string>, order: seq<nat>): set<string>
    requires forall k :: 0 <= k < |order| ==> order[k] < |names|
  {
    set k | 0 <= k < |order| :: names[order[k]]
  }

  /** The walk's emitted indices, without the stop: each index of `order` whose
      disease name has not been met earlier in `order`. */
  function FirstOfEachName(names: seq<string>, order: seq<nat>): (picked: seq<nat>)
    requires forall k :: 0 <= k < |order| ==> order[k] < |names|
    ensures forall k :: 0 <= k < |picked| ==> picked[k] < |names|
    decreases |order|
  {
    if order == [] then []
    else
      var n := |order| - 1;
      var picked := FirstOfEachName(names, order[..n]);
      if names[order[n]] in NamesAlong(names, order[..n]) then picked else picked + [order[n]]
  }

  /** The positions in `order` that `FirstOfEachName` emits, ascending. */
  ghost function FirstPositions(names: seq<string>, order: seq<nat>): (pos: seq<nat>)
    requires forall k :: 0 <= k < |order| ==> order[k] < |names|
    ensures forall k :: 0 <= k < |pos| ==> pos[k] < |order|
    decreases |order|
  {
    if order == [] then []
    else
      var n := |order| - 1;
      var pos := FirstPositions(names, order[..n]);
      if names[order[n]] in NamesAlong(names, order[..n]) then pos else pos + [n]
  }

  lemma NamesAlongExtend(names: seq<string>, order: seq<nat>)
    requires order != []
    requires forall k :: 0 <= k < |order| ==> order[k] < |names|
    ensures NamesAlong(names, order) == NamesAlong(names, order[..|order| - 1]) + {names[order[|order| - 1]]}
  {
    var n := |order| - 1;
    forall x | x in NamesAlong(names, order)
      ensures x in NamesAlong(names, order[..n]) + {names[order[n]]}
    {
      var k :| 0 <= k < |order| && names[order[k]] == x;
      if k < n {
        assert order[..n][k] == order[k];
      }
    }
    forall x | x in NamesAlong(names, order[..n])
      ensures x in NamesAlong(names, order)
    {
      var k :| 0 <= k < n && names[order[..n][k]] == x;
      assert order[..n][k] == order[k];
    }
  }

  /** The emitted indices are the entries of `order` at ascending positions. */
  lemma {:induction false} FirstPositionsLocate(names: seq<string>, order: seq<nat>)
    requires forall k :: 0 <= k < |order| ==> order[k] < |names|
    ensures var picked := FirstOfEachName(names, order);
      var pos := FirstPositions(names, order);
      && |pos| == |picked|
      && (forall k, l :: 0 <= k < l < |pos| ==> pos[k] < pos[l])
      && (forall k :: 0 <= k < |pos| ==> picked[k] == order[pos[k]])
    decreases |order|
  {
    if order != [] {
      var n := |order| - 1;
      var init := order[..n];
      FirstPositionsLocate(names, init);
      assert forall q :: 0 <= q < n ==> init[q] == order[q];
    }
  }

  /** No entry of `order` before an emitted position carries the emitted name: each
      emitted index is the first one of its disease. */
  lemma {:induction false} FirstPositionsAreFirst(names: seq<string>, order: seq<nat>)
    requires forall k :: 0 <= k < |order| ==> order[k] < |names|
    ensures forall k, q :: 0 <= k < |FirstPositions(names, order)| && 0 <= q < FirstPositions(names, order)[k] ==>
      names[order[q]] != names[order[FirstPositions(names, order)[k]]]
    decreases |order|
  {
    if order != [] {
      var n := |order| - 1;
      var init := order[..n];
      FirstPositionsAreFirst(names, init);
      var pos0 := FirstPositions(names, init);
      var pos := FirstPositions(names, order);
      var isNew := names[order[n]] !in NamesAlong(names, init);
      assert pos == pos0 + (if isNew then [n] else []);
      forall k, q | 0 <= k < |pos| && 0 <= q < pos[k]
        ensures names[order[q]] != names[order[pos[k]]]
      {
        assert init[q] == order[q];
        if k < |pos0| {
          assert pos[k] == pos0[k] && init[pos0[k]] == order[pos[k]];
          assert names[init[q]] != names[init[pos0[k]]];
        } else {
          assert pos[k] == n;
          assert names[init[q]] in NamesAlong(names, init);
        }
      }
    }
  }

  /** The name at position `q` of `order` is emitted at or before `q`. */
  lemma {:induction false} FirstPositionsCoverAt(names: seq<string>, order: seq<nat>, q: nat)
    requires forall k :: 0 <= k < |order| ==> order[k] < |names|
    requires q < |order|
    ensures exists k ::
      && 0 <= k < |FirstPositions(names, order)|
      && FirstPositions(names, order)[k] <= q
      && names[order[FirstPositions(names, order)[k]]] == names[order[q]]
    decreases |order|
  {
    var n := |order| - 1;
    var init := order[..n];
    var pos0 := FirstPositions(names, init);
    var pos := FirstPositions(names, order);
    var isNew := names[order[n]] !in NamesAlong(names, init);
    assert pos == pos0 + (if isNew then [n] else []);
    if q == n && isNew {
      assert pos[|pos| - 1] == n;
    } else {
      var q0 := q;
      if q == n {
        q0 :| 0 <= q0 < n && names[init[q0]] == names[order[n]];
      }
      FirstPositionsCoverAt(names, init, q0);
      var k :| 0 <= k < |pos0| && pos0[k] <= q0 && names[init[pos0[k]]] == names[init[q0]];
      assert pos[k] == pos0[k] && init[pos0[k]] == order[pos[k]] && init[q0] == order[q0];
    }
  }

  /** The walk emits as many indices as there are distinct names along `order`. */
  lemma {:induction false} FirstOfEachNameCount(names: seq<string>, order: seq<nat>)
    requires forall k :: 0 <= k < |order| ==> order[k] < |names|
    ensures |FirstOfEachName(names, order)| == |NamesAlong(names, order)|
    decreases |order|
  {
    if order != [] {
      var n := |order| - 1;
      var seen := NamesAlong(names, order[..n]);
      FirstOfEachNameCount(names, order[..n]);
      NamesAlongExtend(names, order);
      if names[order[n]] in seen {
        assert NamesAlong(names, order) == seen;
      } else {
        assert |seen + {names[order[n]]}| == |seen| + 1;
      }
    }
  }

  /** Walking a prefix of `order` emits a prefix of what walking all of it emits. */
  lemma {:induction false} FirstOfEachNamePrefix(names: seq<string>, order: seq<nat>, m: nat)
    requires forall k :: 0 <= k < |order| ==> order[k] < |names|
    requires m <= |order|
    ensures FirstOfEachName(names, order[..m]) <= FirstOfEachName(names, order)
    decreases |order|
  {
    if m < |order| {
      var n := |order| - 1;
      FirstOfEachNamePrefix(names, order[..n], m);
      assert order[..n][..m] == order[..m];
    } else {
      assert order[..m] == order;
    }
  }

  /** `predict`'s default `top_n`. */
  const DefaultTopN: int := 5

  /** The walk stops once `len(results) >= top_n`, and the test comes after the first
      append: it emits at most `top_n` results, and one when `top_n <= 0`. */
  function Target(topN: int): nat
  {
    if topN >= 1 then topN else 1
  }

  function Truncate(picked: seq<nat>, topN: int): (r: seq<nat>)
    ensures r <= picked
  {
    if |picked| <= Target(topN) then picked else picked[..Target(topN)]
  }

  /** The record indices `predict` reports, in order, for these scores. */
  function Picked(names: seq<string>, scores: seq<real>, topN: int): (picked: seq<nat>)
    requires |names| == |scores|
    ensures forall k :: 0 <= k < |picked| ==> picked[k] < |names|
  {
    Truncate(FirstOfEachName(names, RankOrder(scores)), topN)
  }

  function DistinctNames(names: seq<string>): set<string>
  {
    set i | 0 <= i < |names| :: names[i]
  }

  /** Walking a rank order meets every disease name. */
  lemma NamesAlongRankOrder(names: seq<string>, scores: seq<real>)
    requires |names| == |scores|
    ensures NamesAlong(names, RankOrder(scores)) == DistinctNames(names)
  {
    var order := RankOrder(scores);
    forall x | x in DistinctNames(names)
      ensures x in NamesAlong(names, order)
    {
      var i :| 0 <= i < |names| && names[i] == x;
      assert i in order;
      var q :| 0 <= q < |order| && order[q] == i;
    }
  }

  /** No disease is reported twice, and the reports come in ranking order: higher
      score first, equal scores by record index. */
  lemma PickedAreDistinctAndRanked(names: seq<string>, scores: seq<real>, topN: int)
    requires |names| == |scores|
    ensures var picked := Picked(names, scores, topN);
      forall k, l :: 0 <= k < l < |picked| ==>
        names[picked[k]] != names[picked[l]] && RanksBefore(scores, picked[k], picked[l])
  {
    var order := RankOrder(scores);
    var all := FirstOfEachName(names, order);
    var pos := FirstPositions(names, order);
    var picked := Picked(names, scores, topN);
    FirstPositionsLocate(names, order);
    FirstPositionsAreFirst(names, order);
    forall k, l | 0 <= k < l < |picked|
      ensures names[picked[k]] != names[picked[l]] && RanksBefore(scores, picked[k], picked[l])
    {
      assert picked[k] == all[k] == order[pos[k]] && picked[l] == all[l] == order[pos[l]];
    }
  }

  /** Each report is the best-ranked record of its disease. */
  lemma PickedAreBestOfTheirDisease(names: seq<string>, scores: seq<real>, topN: int)
    requires |names| == |scores|
    ensures var picked := Picked(names, scores, topN);
      forall k, j :: 0 <= k < |picked| && 0 <= j < |scores| && names[j] == names[picked[k]] ==>
        j == picked[k] || RanksBefore(scores, picked[k], j)
  {
    var order := RankOrder(scores);
    var all := FirstOfEachName(names, order);
    var pos := FirstPositions(names, order);
    var picked := Picked(names, scores, topN);
    FirstPositionsLocate(names, order);
    FirstPositionsAreFirst(names, order);
    forall k, j | 0 <= k < |picked| && 0 <= j < |scores| && names[j] == names[picked[k]]
      ensures j == picked[k] || RanksBefore(scores, picked[k], j)
    {
      assert j in order;
      var q :| 0 <= q < |order| && order[q] == j;
      assert picked[k] == all[k] == order[pos[k]];
    }
  }

  /** `min(top_n, #diseases)` reports for `top_n >= 1`, and one report for
      `top_n <= 0` when there are records. */
  lemma PickedCount(names: seq<string>, scores: seq<real>, topN: int)
    requires |names| == |scores|
    ensures |Picked(names, scores, topN)| ==
      if Target(topN) <= |DistinctNames(names)| then Target(topN) else |DistinctNames(names)|
  {
    FirstOfEachNameCount(names, RankOrder(scores));
    NamesAlongRankOrder(names, scores);
  }

  /** When fewer reports than the bound come back, every disease is reported. */
  lemma PickedCoverAllWhenShort(names: seq<string>, scores: seq<real>, topN: int)
    requires |names| == |scores|
    ensures var picked := Picked(names, scores, topN);
      |picked| < Target(topN) ==>
        forall j :: 0 <= j < |names| ==> exists k :: 0 <= k < |picked| && names[picked[k]] == names[j]
  {
    var order := RankOrder(scores);
    var all := FirstOfEachName(names, order);
    var pos := FirstPositions(names, order);
    var picked := Picked(names, scores, topN);
    FirstPositionsLocate(names, order);
    if |picked| < Target(topN) {
      assert picked == all;
      forall j | 0 <= j < |names|
        ensures exists k :: 0 <= k < |picked| && names[picked[k]] == names[j]
      {
        assert j in order;
        var q :| 0 <= q < |order| && order[q] == j;
        FirstPositionsCoverAt(names, order, q);
        var k :| 0 <= k < |pos| && pos[k] <= q && names[order[pos[k]]] == names[order[q]];
        assert all[k] == order[pos[k]];
        assert names[picked[k]] == names[j];
      }
    }
  }

  /** One more step of the walk: the name of `order[i]` is met, and `order[i]` is
      emitted when that name was not met before. */
  lemma WalkStep(names: seq<string>, order: seq<nat>, i: nat)
    requires forall k :: 0 <= k < |order| ==> order[k] < |names|
    requires i < |order|
    ensures NamesAlong(names, order[..i + 1]) == NamesAlong(names, order[..i]) + {names[order[i]]}
    ensures FirstOfEachName(names, order[..i + 1]) ==
      FirstOfEachName(names, order[..i]) +
        if names[order[i]] in NamesAlong(names, order[..i]) then [] else [order[i]]
  {
    assert order[..i + 1][..i] == order[..i];
    NamesAlongExtend(names, order[..i + 1]);
    var prev := FirstOfEachName(names, order[..i]);
    assert prev + [] == prev;
  }

  /** The loop at the end of `predict`: walk `order`, remember the names `seen`, emit
      an index the first time its name is met, stop once `len(results) >= top_n`. */
  method TopDistinct(names: seq<string>, order: seq<nat>, topN: int) returns (picked: seq<nat>)
    requires forall k :: 0 <= k < |order| ==> order[k] < |names|
    ensures picked == Truncate(FirstOfEachName(names, order), topN)
  {
    var seen: set<string> := {};
    picked := [];
    for i := 0 to |order|
      invariant seen == NamesAlong(names, order[..i])
      invariant picked == FirstOfEachName(names, order[..i])
      invariant |picked| == |seen| < Target(topN)
    {
      var disease := names[order[i]];
      WalkStep(names, order, i);
      if disease !in seen {
        seen := seen + {disease};
        picked := picked + [order[i]];
      }
      if |picked| >= topN {
        FirstOfEachNamePrefix(names, order, i + 1);
        TruncateAtTarget(picked, FirstOfEachName(names, order), topN);
        return;
      }
    }
    assert order[..|order|] == order;
  }

  /** A prefix of `all` of exactly the target length is what `Truncate` keeps. */
  lemma TruncateAtTarget(picked: seq<nat>, all: seq<nat>, topN: int)
    requires picked <= all
    requires |picked| == Target(topN)
    ensures Truncate(all, topN) == picked
  {
  }

  /** One entry of the list `predict` returns, without the rounding of the score. */
  datatype Ranked = Ranked(disease: string, similarity: real, matchedSymptoms: seq<string>)

  /** The disease of each record, in record order. */
  function Diseases(data: seq<Record>): (names: seq<string>)
    ensures |names| == |data|
    ensures forall i :: 0 <= i < |data| ==> names[i] == data[i].disease
  {
    seq(|data|, i requires 0 <= i < |data| => data[i].disease)
  }

  /** The entry `predict` appends for record `i`. */
  function Entry(data: seq<Record>, scores: seq<real>, i: nat): Ranked
    requires i < |data| && i < |scores|
  {
    Ranked(data[i].disease, scores[i], data[i].symptoms)
  }

  /** The entries the final loop of `predict` returns for these scores. */
  function Report(data: seq<Record>, scores: seq<real>, topN: int): (results: seq<Ranked>)
    requires |scores| == |data|
  {
    var picked := Picked(Diseases(data), scores, topN);
    seq(|picked|, k requires 0 <= k < |picked| => Entry(data, scores, picked[k]))
  }

  /** `entry` is what record `i` reports, and no other record of its disease ranks
      before it. */
  predicate IsBestEntry(data: seq<Record>, scores: seq<real>, i: nat, entry: Ranked)
    requires |scores| == |data|
  {
    && i < |data|
    && entry == Entry(data, scores, i)
    && forall j :: 0 <= j < |data| && data[j].disease == data[i].disease ==> j == i || RanksBefore(scores, i, j)
  }

  /** The ranking half of `predict`: sort the record indices by descending score,
      walk them keeping the first record of each disease until `top_n` are kept, and
      build one entry per kept record. */
  method RankAndReport(data: seq<Record>, scores: seq<real>, topN: int) returns (results: seq<Ranked>)
    requires |scores| == |data|
    ensures results == Report(data, scores, topN)
  {
    var order := RankOrder(scores);
    var picked := TopDistinct(Diseases(data), order, topN);
    assert picked == Picked(Diseases(data), scores, topN);
    results := seq(|picked|, k requires 0 <= k < |picked| => Entry(data, scores, picked[k]));
  }

  /** The reported entries: `min(top_n, #diseases)` of them (one when `top_n <= 0`),
      no disease twice, in order of non-increasing similarity, each the disease, score
      and symptom list of the best-ranked record of its disease. */
  lemma ReportProperties(data: seq<Record>, scores: seq<real>, topN: int, results: seq<Ranked>)
    requires |scores| == |data|
    requires results == Report(data, scores, topN)
    ensures |results| ==
      if Target(topN) <= |DistinctNames(Diseases(data))| then Target(topN) else |DistinctNames(Diseases(data))|
    ensures forall k, l :: 0 <= k < l < |results| ==>
      results[k].disease != results[l].disease && results[k].similarity >= results[l].similarity
    ensures forall k :: 0 <= k < |results| ==>
      IsBestEntry(data, scores, Picked(Diseases(data), scores, topN)[k], results[k])
  {
    var names := Diseases(data);
    var picked := Picked(names, scores, topN);
    PickedCount(names, scores, topN);
    PickedAreDistinctAndRanked(names, scores, topN);
    PickedAreBestOfTheirDisease(names, scores, topN);
    forall k, l | 0 <= k < l < |results|
      ensures results[k].disease != results[l].disease && results[k].similarity >= results[l].similarity
    {
      assert RanksBefore(scores, picked[k], picked[l]);
    }
    forall k | 0 <= k < |results|
      ensures IsBestEntry(data, scores, picked[k], results[k])
    {
      var i := picked[k];
      assert results[k] == Entry(data, scores, i);
      assert forall j :: 0 <= j < |data| && data[j].disease == data[i].disease ==> names[j] == names[i];
    }
  }
}
