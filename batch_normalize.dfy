/**
 * `normalize_batch_to_hpo` in data/human-phenotype-ontology/test_sim_serch.py:
 * the earlier batch variant of the normalization. For each query it takes
 * `topk(top_k)` without clamping, merges the hits by HPO id with
 * `max(merged[id], score)` over a `defaultdict(float)`, and sorts; results
 * carry only the id and the score.
 *
 * Nothing is caught here: `topk` raises when `top_k` is negative or above the
 * number of embeddings, and indexing raises past the end of the arrays; the
 * model asks its callers to stay clear of those.
 */
module BatchNormalize {
  import opened Wrappers
  import opened Ranking

  /** One merged result, `{"hpo_id", "score"}`. */
  datatype Scored = Scored(hpoId: string, score: int)

  function ScoredScore(s: Scored): int { s.score }

  function ScoredId(s: Scored): string { s.hpoId }

  function ScoredIds(ss: seq<Scored>): (ids: seq<string>)
    ensures |ids| == |ss| && forall i :: 0 <= i < |ss| ==> ids[i] == ss[i].hpoId
  {
    seq(|ss|, i requires 0 <= i < |ss| => ss[i].hpoId)
  }

  /** One entry of `outputs`. */
  datatype BatchOutput = BatchOutput(query: string, results: seq<Scored>)

  /** `merged`, with its keys in insertion order. */
  datatype MaxMerge = MaxMerge(keys: seq<string>, merged: map<string, int>)

  /** `merged[id] = max(merged[id], score)`, the read inserting `id` at `0.0`. */
  function MaxStep(m: MaxMerge, h: Hit): MaxMerge {
    var keys := if h.hpoId in m.merged then m.keys else m.keys + [h.hpoId];
    var current := if h.hpoId in m.merged then m.merged[h.hpoId] else 0;
    MaxMerge(keys, m.merged[h.hpoId := if current >= h.score then current else h.score])
  }

  function MaxAll(hits: seq<Hit>): MaxMerge {
    if hits == [] then MaxMerge([], map[]) else MaxStep(MaxAll(hits[..|hits| - 1]), hits[|hits| - 1])
  }

  /** The merge loop. */
  method MergeMax(hits: seq<Hit>) returns (keys: seq<string>, merged: map<string, int>)
    ensures MaxMerge(keys, merged) == MaxAll(hits)
  {
    keys, merged := [], map[];
    for j := 0 to |hits|
      invariant MaxMerge(keys, merged) == MaxAll(hits[..j])
    {
      var r := hits[j];
      assert hits[..j + 1][..j] == hits[..j];
      var current := if r.hpoId in merged then merged[r.hpoId] else 0;
      if r.hpoId !in merged {
        keys := keys + [r.hpoId];
      }
      merged := merged[r.hpoId := if current >= r.score then current else r.score];
    }
    assert hits[..|hits|] == hits;
  }


  /**
   * After the hits `hits`: the keys are the ids in first-seen order and each
   * id's entry is its best score, or `0.0` if that is higher.
   */
  ghost predicate MaxInv(hits: seq<Hit>, m: MaxMerge) {
    m.keys == FirstSeen(HitIds(hits)) &&
    (forall id :: id in m.merged ==> id in HitIds(hits)) &&
    (forall id :: id in HitIds(hits) ==> id in m.merged && m.merged[id] == Max0(MaxScore(hits, id)))
  }

  lemma MaxStepInv(hits: seq<Hit>, m: MaxMerge, h: Hit)
    requires MaxInv(hits, m)
    ensures MaxInv(hits + [h], MaxStep(m, h))
  {
    var hs := hits + [h];
    HitIdsSnoc(hits, h);
    FirstSeenSpec(HitIds(hits));
    assert (HitIds(hits) + [h.hpoId])[..|HitIds(hits)|] == HitIds(hits);
    forall id | id in HitIds(hs)
      ensures id in MaxStep(m, h).merged && MaxStep(m, h).merged[id] == Max0(MaxScore(hs, id))
    {
      if id != h.hpoId {
        MaxScoreSnocOther(hits, h, id);
      } else {
        MaxScoreSnocSame(hits, h);
      }
    }
  }

  lemma {:induction false} MaxAllInv(hits: seq<Hit>)
    ensures MaxInv(hits, MaxAll(hits))
  {
    if hits != [] {
      var init, last := hits[..|hits| - 1], hits[|hits| - 1];
      assert init + [last] == hits;
      assert MaxAll(hits) == MaxStep(MaxAll(init), last);
      MaxAllInv(init);
      MaxStepInv(init, MaxAll(init), last);
    }
  }

  /** `[{"hpo_id": k, "score": v} for k, v in merged.items()]`. */
  function Entries(keys: seq<string>, merged: map<string, int>): (ss: seq<Scored>)
    requires forall k :: k in keys ==> k in merged
    ensures |ss| == |keys| && forall i :: 0 <= i < |keys| ==> ss[i] == Scored(keys[i], merged[keys[i]])
  {
    seq(|keys|, i requires 0 <= i < |keys| => Scored(keys[i], merged[keys[i]]))
  }

  /** What the caller must ensure: `0 <= top_k <= N`, and indices below `N` valid in both arrays. */
  predicate BatchIndex(index: Index, topK: int) {
    0 <= topK <= index.size && |index.ids| >= index.size && |index.texts| >= index.size
  }

  /** The rows of scores and the indices `topk(top_k)` selects from each. */
  ghost predicate BatchRetrieval(qs: seq<string>, index: Index, topK: nat, rows: seq<seq<int>>, picks: seq<seq<nat>>) {
    |rows| == |qs| && |picks| == |qs| &&
    forall i :: 0 <= i < |qs| ==> |rows[i]| == index.size && IsTopK(rows[i], topK, picks[i])
  }

  /** One query: the raw hits merged by max and sorted by score, highest first. */
  function BatchQuery(index: Index, row: seq<int>, picks: seq<nat>): seq<Scored>
    requires |row| <= |index.ids| && |row| <= |index.texts|
    requires forall j :: 0 <= j < |picks| ==> picks[j] < |row|
  {
    CollectSpec(index, row, picks);
    var m := MaxAll(Collect(index, row, picks).value);
    MaxAllInv(Collect(index, row, picks).value);
    FirstSeenSpec(HitIds(Collect(index, row, picks).value));
    SortDesc(Entries(m.keys, m.merged), ScoredScore)
  }

  /** The query loop: one output per query, in order. */
  ghost function BatchSpec(qs: seq<string>, index: Index, topK: nat, rows: seq<seq<int>>, picks: seq<seq<nat>>): seq<BatchOutput>
    requires BatchIndex(index, topK) && BatchRetrieval(qs, index, topK, rows, picks)
  {
    if qs == [] then []
    else
      var i := |qs| - 1;
      BatchSpec(qs[..i], index, topK, rows[..i], picks[..i]) + [BatchOutput(qs[i], BatchQuery(index, rows[i], picks[i]))]
  }

  /** The body of the query loop after `topk`. */
  method BatchAnswer(index: Index, row: seq<int>, picks: seq<nat>) returns (results: seq<Scored>)
    requires |row| <= |index.ids| && |row| <= |index.texts|
    requires forall j :: 0 <= j < |picks| ==> picks[j] < |row|
    ensures results == BatchQuery(index, row, picks)
  {
    CollectSpec(index, row, picks);
    var raw := CollectRaw(index, row, picks);
    var keys, merged := MergeMax(raw.value);
    MaxAllInv(raw.value);
    FirstSeenSpec(HitIds(raw.value));
    results := SortDesc(Entries(keys, merged), ScoredScore);
  }

  /** `normalize_batch_to_hpo`, with the selections as inputs. */
  method NormalizeBatch(queries: seq<string>, index: Index, topK: nat, rows: seq<seq<int>>, picks: seq<seq<nat>>)
    returns (outputs: seq<BatchOutput>)
    requires BatchIndex(index, topK) && BatchRetrieval(queries, index, topK, rows, picks)
    ensures outputs == BatchSpec(queries, index, topK, rows, picks)
  {
    outputs := [];
    for i := 0 to |queries|
      invariant outputs == BatchSpec(queries[..i], index, topK, rows[..i], picks[..i])
    {
      assert queries[..i + 1][..i] == queries[..i];
      assert rows[..i + 1][..i] == rows[..i];
      assert picks[..i + 1][..i] == picks[..i];
      var results := BatchAnswer(index, rows[i], picks[i]);
      outputs := outputs + [BatchOutput(queries[i], results)];
    }
    assert queries[..|queries|] == queries;
    assert rows[..|queries|] == rows;
    assert picks[..|queries|] == picks;
  }

  // ---------------------------------------------------------------------------
  // Properties
  // ---------------------------------------------------------------------------

  /** One output per query, in input order, each with its query and that query's results. */
  lemma {:induction false} BatchShape(qs: seq<string>, index: Index, topK: nat, rows: seq<seq<int>>, picks: seq<seq<nat>>)
    requires BatchIndex(index, topK) && BatchRetrieval(qs, index, topK, rows, picks)
    ensures var outs := BatchSpec(qs, index, topK, rows, picks);
      |outs| == |qs| &&
      forall i :: 0 <= i < |qs| ==> outs[i] == BatchOutput(qs[i], BatchQuery(index, rows[i], picks[i]))
  {
    if qs != [] {
      var i := |qs| - 1;
      BatchShape(qs[..i], index, topK, rows[..i], picks[..i]);
    }
  }

  /** The results of one query before sorting: the first-seen ids with their merged entries. */
  ghost function Unsorted(index: Index, row: seq<int>, picks: seq<nat>): (es: seq<Scored>)
    requires |row| <= |index.ids| && |row| <= |index.texts|
    requires forall j :: 0 <= j < |picks| ==> picks[j] < |row|
    ensures Collect(index, row, picks).Ok?
    ensures var hits := Collect(index, row, picks).value;
      ScoredIds(es) == FirstSeen(HitIds(hits)) &&
      BatchQuery(index, row, picks) == SortDesc(es, ScoredScore) &&
      forall i :: 0 <= i < |es| ==>
        es[i].hpoId in HitIds(hits) && es[i].score == Max0(MaxScore(hits, es[i].hpoId))
  {
    CollectSpec(index, row, picks);
    var hits := Collect(index, row, picks).value;
    var m := MaxAll(hits);
    MaxAllInv(hits);
    FirstSeenSpec(HitIds(hits));
    var es := Entries(m.keys, m.merged);
    assert ScoredIds(es) == m.keys;
    es
  }

  /**
   * One query has at most `top_k` results, with distinct ids that are
   * exactly the ids at the selected indices.
   */
  lemma BatchQueryIds(index: Index, row: seq<int>, picks: seq<nat>)
    requires |row| <= |index.ids| && |row| <= |index.texts|
    requires forall j :: 0 <= j < |picks| ==> picks[j] < |row|
    ensures var rs := BatchQuery(index, row, picks);
      |rs| <= |picks| && Distinct(ScoredIds(rs)) &&
      forall id :: id in ScoredIds(rs) <==> exists j :: 0 <= j < |picks| && index.ids[picks[j]] == id
  {
    var es := Unsorted(index, row, picks);
    var hits := Collect(index, row, picks).value;
    var rs := SortDesc(es, ScoredScore);
    CollectSpec(index, row, picks);
    FirstSeenSpec(HitIds(hits));
    SortDescPermutation(es, ScoredScore);
    SortDescDistinct(es, ScoredScore, ScoredId);
    assert |rs| == |es| by {
      assert |multiset(rs)| == |multiset(es)|;
    }
    SameScoredIds(rs, es);
    HitIdsSelected(index, row, picks);
  }

  /** Permuted results have the same ids. */
  lemma SameScoredIds(a: seq<Scored>, b: seq<Scored>)
    requires multiset(a) == multiset(b)
    ensures forall id :: id in ScoredIds(a) <==> id in ScoredIds(b)
  {
    forall id ensures id in ScoredIds(a) ==> id in ScoredIds(b) {
      if id in ScoredIds(a) {
        var i :| 0 <= i < |a| && a[i].hpoId == id;
        assert a[i] in multiset(b);
      }
    }
    forall id ensures id in ScoredIds(b) ==> id in ScoredIds(a) {
      if id in ScoredIds(b) {
        var i :| 0 <= i < |b| && b[i].hpoId == id;
        assert b[i] in multiset(a);
      }
    }
  }

  /**
   * Each result of one query is scored with its id's best score, or `0.0`
   * if that is higher: a negative best score is reported as `0.0`.
   */
  lemma BatchQueryScores(index: Index, row: seq<int>, picks: seq<nat>)
    requires |row| <= |index.ids| && |row| <= |index.texts|
    requires forall j :: 0 <= j < |picks| ==> picks[j] < |row|
    ensures Collect(index, row, picks).Ok?
    ensures var hits := Collect(index, row, picks).value;
      var rs := BatchQuery(index, row, picks);
      forall i :: 0 <= i < |rs| ==>
        rs[i].hpoId in HitIds(hits) && rs[i].score == Max0(MaxScore(hits, rs[i].hpoId))
  {
    var es := Unsorted(index, row, picks);
    var rs := SortDesc(es, ScoredScore);
    SortDescPermutation(es, ScoredScore);
    forall i | 0 <= i < |rs| ensures rs[i] in es {
      assert rs[i] in multiset(es);
    }
  }

  /**
   * The results of one query are sorted by score, highest first, and those
   * of equal score come in the order their ids were first seen.
   */
  lemma BatchQueryOrder(index: Index, row: seq<int>, picks: seq<nat>)
    requires |row| <= |index.ids| && |row| <= |index.texts|
    requires forall j :: 0 <= j < |picks| ==> picks[j] < |row|
    ensures var rs := BatchQuery(index, row, picks);
      var es := Unsorted(index, row, picks);
      SortedDesc(rs, ScoredScore) &&
      ScoredIds(es) == FirstSeen(HitIds(Collect(index, row, picks).value)) &&
      forall v :: WithKey(rs, ScoredScore, v) == WithKey(es, ScoredScore, v)
  {
    SortDescSpec(Unsorted(index, row, picks), ScoredScore);
  }
}
