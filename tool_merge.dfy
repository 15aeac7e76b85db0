/**
 * One query of `HPONormalizationTool.run` in
 * src/tooluniverse/hpo_normalization_tool.py: the raw hits merged by HPO id
 * into `merged` (a `defaultdict(float)`) and `best_match_text`, the merged
 * entries assembled into results, and the results sorted by score.
 *
 * Reading `merged[id]` inserts `id` at `0.0`, and an entry is only updated by
 * a strictly higher score, so an id none of whose hits scores above `0.0` is
 * a key of `merged` without a `best_match_text`; assembling it raises
 * KeyError.
 */
module ToolMerge {
  import opened Wrappers
  import opened Ranking

  /** One merged result, `{"hpo_id", "score", "matched_text"}`. */
  datatype Match = Match(hpoId: string, score: int, matchedText: string)

  function MatchScore(m: Match): int { m.score }

  function MatchId(m: Match): string { m.hpoId }

  /** The ids of the results, position by position. */
  function MatchIds(ms: seq<Match>): (ids: seq<string>)
    ensures |ids| == |ms| && forall i :: 0 <= i < |ms| ==> ids[i] == ms[i].hpoId
  {
    seq(|ms|, i requires 0 <= i < |ms| => ms[i].hpoId)
  }

  /**
   * The two dicts: `merged` with its keys in insertion order, and
   * `best_match_text`.
   */
  datatype Merge = Merge(keys: seq<string>, merged: map<string, int>, best: map<string, string>)

  const NoMerge := Merge([], map[], map[])

  /** One pass of the merge loop. */
  function MergeStep(m: Merge, h: Hit): Merge {
    var keys := if h.hpoId in m.merged then m.keys else m.keys + [h.hpoId];
    var current := if h.hpoId in m.merged then m.merged[h.hpoId] else 0;
    if h.score > current then Merge(keys, m.merged[h.hpoId := h.score], m.best[h.hpoId := h.text])
    else Merge(keys, m.merged[h.hpoId := current], m.best)
  }

  function MergeAll(hits: seq<Hit>): Merge {
    if hits == [] then NoMerge else MergeStep(MergeAll(hits[..|hits| - 1]), hits[|hits| - 1])
  }

  /** The merge loop, updating the two dicts in place. */
  method MergeHits(hits: seq<Hit>) returns (keys: seq<string>, merged: map<string, int>, best: map<string, string>)
    ensures Merge(keys, merged, best) == MergeAll(hits)
  {
    keys, merged, best := [], map[], map[];
    for j := 0 to |hits|
      invariant Merge(keys, merged, best) == MergeAll(hits[..j])
    {
      var r := hits[j];
      assert hits[..j + 1][..j] == hits[..j];
      if r.hpoId !in merged {
        merged := merged[r.hpoId := 0];
        keys := keys + [r.hpoId];
      }
      if r.score > merged[r.hpoId] {
        merged := merged[r.hpoId := r.score];
        best := best[r.hpoId := r.text];
      }
    }
    assert hits[..|hits|] == hits;
  }


  /**
   * What the merge holds after the hits `hits`: the keys are the ids in
   * first-seen order, each id's entry is its best score or `0.0` if that is
   * higher, and an id has a best text exactly when its best score is above
   * `0.0`: the text of the first hit reaching that score.
   */
  ghost predicate MergeInv(hits: seq<Hit>, m: Merge) {
    m.keys == FirstSeen(HitIds(hits)) &&
    (forall id :: id in m.merged ==> id in HitIds(hits)) &&
    (forall id :: id in m.best ==> id in HitIds(hits)) &&
    (forall id :: id in HitIds(hits) ==> MergeEntry(hits, m, id))
  }

  /** The entries of one id that MergeInv describes. */
  ghost predicate MergeEntry(hits: seq<Hit>, m: Merge, id: string)
    requires id in HitIds(hits)
  {
    id in m.merged && m.merged[id] == Max0(MaxScore(hits, id)) &&
    (id in m.best <==> MaxScore(hits, id) > 0) &&
    (id in m.best ==> m.best[id] == hits[FirstBest(hits, id)].text)
  }

  lemma FirstSeenSnoc(s: seq<string>, x: string)
    ensures FirstSeen(s + [x]) == if x in FirstSeen(s) then FirstSeen(s) else FirstSeen(s) + [x]
  {
    assert (s + [x])[..|s|] == s;
  }

  /** A hit with another id leaves the entries of `id` as MergeInv wants them. */
  lemma MergeStepOther(hits: seq<Hit>, m: Merge, h: Hit, id: string)
    requires id in HitIds(hits) && id != h.hpoId && MergeEntry(hits, m, id)
    ensures id in HitIds(hits + [h]) && MergeEntry(hits + [h], MergeStep(m, h), id)
  {
    var hs := hits + [h];
    MaxScoreSnocOther(hits, h, id);
    FirstBestSnocOther(hits, h, id);
    assert hs[FirstBest(hits, id)] == hits[FirstBest(hits, id)];
  }

  /** The hit's own id gets the entries MergeInv wants. */
  lemma MergeStepSame(hits: seq<Hit>, m: Merge, h: Hit)
    requires h.hpoId in m.merged <==> h.hpoId in HitIds(hits)
    requires h.hpoId in m.best ==> h.hpoId in HitIds(hits)
    requires h.hpoId in HitIds(hits) ==> MergeEntry(hits, m, h.hpoId)
    ensures h.hpoId in HitIds(hits + [h]) && MergeEntry(hits + [h], MergeStep(m, h), h.hpoId)
  {
    var hs := hits + [h];
    var x := h.hpoId;
    MaxScoreSnocSame(hits, h);
    if x in HitIds(hits) && h.score <= MaxScore(hits, x) {
      FirstBestSnocKeep(hits, h);
      assert hs[FirstBest(hits, x)] == hits[FirstBest(hits, x)];
    } else {
      FirstBestSnocNew(hits, h);
      assert hs[|hits|] == h;
    }
  }

  lemma MergeStepInv(hits: seq<Hit>, m: Merge, h: Hit)
    requires MergeInv(hits, m)
    ensures MergeInv(hits + [h], MergeStep(m, h))
  {
    var hs := hits + [h];
    var m' := MergeStep(m, h);
    HitIdsSnoc(hits, h);
    FirstSeenSpec(HitIds(hits));
    FirstSeenSnoc(HitIds(hits), h.hpoId);
    MergeStepSame(hits, m, h);
    forall id | id in HitIds(hs) ensures MergeEntry(hs, m', id) {
      if id != h.hpoId {
        MergeStepOther(hits, m, h, id);
      }
    }
  }

  /** The merge loop keeps MergeInv. */
  lemma {:induction false} MergeAllInv(hits: seq<Hit>)
    ensures MergeInv(hits, MergeAll(hits))
  {
    if hits != [] {
      var init := hits[..|hits| - 1];
      var last := hits[|hits| - 1];
      assert init + [last] == hits;
      assert MergeAll(hits) == MergeStep(MergeAll(init), last);
      MergeAllInv(init);
      MergeStepInv(init, MergeAll(init), last);
    }
  }

  // ---------------------------------------------------------------------------
  // Assembling and sorting
  // ---------------------------------------------------------------------------

  /**
   * The list comprehension over `merged.items()`: one result per key, in key
   * order; `best_match_text[k]` raises KeyError at the first key without a
   * best text, which is the error.
   */
  function Assemble(keys: seq<string>, merged: map<string, int>, best: map<string, string>): Result<seq<Match>, string>
    requires forall k :: k in keys ==> k in merged
  {
    if keys == [] then Ok([])
    else
      var k := keys[|keys| - 1];
      match Assemble(keys[..|keys| - 1], merged, best)
      case Err(e) => Err(e)
      case Ok(ms) => if k !in best then Err(k) else Ok(ms + [Match(k, merged[k], best[k])])
  }

  /**
   * Assembling succeeds exactly when every key has a best text; the results
   * are then the keys in order with their entries and texts. On failure the
   * error is a key without a best text, every earlier key having one.
   */
  lemma AssembleSpec(keys: seq<string>, merged: map<string, int>, best: map<string, string>)
    requires forall k :: k in keys ==> k in merged
    ensures Assemble(keys, merged, best).Ok? <==> forall k :: k in keys ==> k in best
    ensures Assemble(keys, merged, best).Ok? ==>
      var ms := Assemble(keys, merged, best).value;
      |ms| == |keys| && forall i :: 0 <= i < |keys| ==> ms[i] == Match(keys[i], merged[keys[i]], best[keys[i]])
    ensures Assemble(keys, merged, best).Err? ==>
      var e := Assemble(keys, merged, best).error;
      e in keys && e !in best && forall i :: 0 <= i < FirstIndex(keys, e) ==> keys[i] in best
  {
    AssembleOkIff(keys, merged, best);
    AssembleValues(keys, merged, best);
    AssembleError(keys, merged, best);
  }

  lemma {:induction false} AssembleOkIff(keys: seq<string>, merged: map<string, int>, best: map<string, string>)
    requires forall k :: k in keys ==> k in merged
    ensures Assemble(keys, merged, best).Ok? <==> forall k :: k in keys ==> k in best
  {
    if keys != [] {
      var init, k := keys[..|keys| - 1], keys[|keys| - 1];
      assert keys == init + [k];
      AssembleOkIff(init, merged, best);
    }
  }

  lemma {:induction false} AssembleValues(keys: seq<string>, merged: map<string, int>, best: map<string, string>)
    requires forall k :: k in keys ==> k in merged
    ensures Assemble(keys, merged, best).Ok? ==>
      var ms := Assemble(keys, merged, best).value;
      |ms| == |keys| && forall i :: 0 <= i < |keys| ==> keys[i] in best && ms[i] == Match(keys[i], merged[keys[i]], best[keys[i]])
  {
    if keys != [] {
      var init, k := keys[..|keys| - 1], keys[|keys| - 1];
      assert keys == init + [k];
      AssembleValues(init, merged, best);
      if Assemble(keys, merged, best).Ok? {
        var ms := Assemble(init, merged, best).value;
        var ms' := ms + [Match(k, merged[k], best[k])];
        assert Assemble(keys, merged, best).value == ms';
        assert forall i :: 0 <= i < |init| ==> ms'[i] == ms[i] && keys[i] == init[i];
      }
    }
  }

  lemma {:induction false} AssembleError(keys: seq<string>, merged: map<string, int>, best: map<string, string>)
    requires forall k :: k in keys ==> k in merged
    ensures Assemble(keys, merged, best).Err? ==>
      var e := Assemble(keys, merged, best).error;
      e in keys && e !in best && forall i :: 0 <= i < FirstIndex(keys, e) ==> keys[i] in best
  {
    if keys != [] {
      var init, k := keys[..|keys| - 1], keys[|keys| - 1];
      assert keys == init + [k];
      AssembleError(init, merged, best);
      AssembleOkIff(init, merged, best);
      match Assemble(init, merged, best)
      case Err(e) =>
        FirstIndexSnoc(init, k, e);
      case Ok(ms) =>
        if k !in best {
          assert forall i :: 0 <= i < |init| ==> keys[i] == init[i];
          assert FirstIndex(keys, k) <= |init|;
        }
    }
  }

  /** Errors of one query, and of the whole call. */
  datatype ToolError =
    | MissingQueries
    | TopKOutOfRange(k: int)
    | IndexOutOfRange(index: nat)
    | NoBestMatch(hpoId: string)

  /**
   * One query: the raw hits of the selected indices, merged, assembled and
   * sorted by score, highest first.
   */
  function QueryOutcome(index: Index, row: seq<int>, picks: seq<nat>): Result<seq<Match>, ToolError>
    requires forall j :: 0 <= j < |picks| ==> picks[j] < |row|
  {
    match Collect(index, row, picks)
    case Err(p) => Err(IndexOutOfRange(p))
    case Ok(hits) =>
      var m := MergeAll(hits);
      MergeAllInv(hits);
      FirstSeenSpec(HitIds(hits));
      match Assemble(m.keys, m.merged, m.best)
      case Err(id) => Err(NoBestMatch(id))
      case Ok(ms) => Ok(SortDesc(ms, MatchScore))
  }

  /** Every retrieved id has a best score above `0.0`. */
  ghost predicate AllPositive(hits: seq<Hit>) {
    forall id :: id in HitIds(hits) ==> MaxScore(hits, id) > 0
  }

  /**
   * A query fails exactly when a selected index is out of range or a
   * retrieved id has no hit scoring above `0.0`; that id is then the error.
   */
  lemma QueryOutcomeFails(index: Index, row: seq<int>, picks: seq<nat>)
    requires forall j :: 0 <= j < |picks| ==> picks[j] < |row|
    ensures Collect(index, row, picks).Ok? <==> InRange(index, picks)
    ensures QueryOutcome(index, row, picks).Ok? <==>
      Collect(index, row, picks).Ok? && AllPositive(Collect(index, row, picks).value)
    ensures !InRange(index, picks) ==>
      QueryOutcome(index, row, picks) == Err(IndexOutOfRange(picks[FirstOut(index, picks)]))
    ensures Collect(index, row, picks).Ok? && QueryOutcome(index, row, picks).Err? ==>
      var hits := Collect(index, row, picks).value;
      var e := QueryOutcome(index, row, picks).error;
      e.NoBestMatch? && e.hpoId in HitIds(hits) && MaxScore(hits, e.hpoId) <= 0
  {
    CollectSpec(index, row, picks);
    if InRange(index, picks) {
      var hits := Collect(index, row, picks).value;
      var m := MergeAll(hits);
      MergeAllInv(hits);
      FirstSeenSpec(HitIds(hits));
      AssembleSpec(m.keys, m.merged, m.best);
    }
  }

  /** The results of a successful query, for the properties below. */
  ghost predicate Answered(index: Index, row: seq<int>, picks: seq<nat>) {
    (forall j :: 0 <= j < |picks| ==> picks[j] < |row|) &&
    QueryOutcome(index, row, picks).Ok?
  }

  /** The results of a successful query before sorting: the first-seen ids with their merged entries. */
  ghost function Assembled(index: Index, row: seq<int>, picks: seq<nat>): (ms: seq<Match>)
    requires Answered(index, row, picks)
    ensures Collect(index, row, picks).Ok?
    ensures var hits := Collect(index, row, picks).value;
      MatchIds(ms) == FirstSeen(HitIds(hits)) &&
      QueryOutcome(index, row, picks).value == SortDesc(ms, MatchScore) &&
      forall i :: 0 <= i < |ms| ==>
        ms[i].hpoId in HitIds(hits) &&
        ms[i].score == MaxScore(hits, ms[i].hpoId) &&
        ms[i].matchedText == hits[FirstBest(hits, ms[i].hpoId)].text
  {
    var hits := Collect(index, row, picks).value;
    var m := MergeAll(hits);
    MergeAllInv(hits);
    FirstSeenSpec(HitIds(hits));
    AssembleSpec(m.keys, m.merged, m.best);
    var ms := Assemble(m.keys, m.merged, m.best).value;
    assert MatchIds(ms) == m.keys;
    ms
  }

  /**
   * A successful query has at most one result per selected index, and the
   * ids of the results are distinct and are exactly the ids at the selected
   * indices.
   */
  lemma QueryIds(index: Index, row: seq<int>, picks: seq<nat>)
    requires Answered(index, row, picks)
    ensures InRange(index, picks)
    ensures var ms := QueryOutcome(index, row, picks).value;
      |ms| <= |picks| && Distinct(MatchIds(ms)) &&
      forall id :: id in MatchIds(ms) <==> exists j :: 0 <= j < |picks| && index.ids[picks[j]] == id
  {
    CollectSpec(index, row, picks);
    var hits := Collect(index, row, picks).value;
    var assembled := Assembled(index, row, picks);
    var ms := SortDesc(assembled, MatchScore);
    FirstSeenSpec(HitIds(hits));
    SortDescPermutation(assembled, MatchScore);
    SortDescDistinct(assembled, MatchScore, MatchId);
    assert |ms| == |assembled| by {
      assert |multiset(ms)| == |multiset(assembled)|;
    }
    SameIds(ms, assembled);
    HitIdsSelected(index, row, picks);
  }

  /** Permuted results have the same ids. */
  lemma SameIds(a: seq<Match>, b: seq<Match>)
    requires multiset(a) == multiset(b)
    ensures forall id :: id in MatchIds(a) <==> id in MatchIds(b)
  {
    forall id ensures id in MatchIds(a) ==> id in MatchIds(b) {
      if id in MatchIds(a) {
        var i :| 0 <= i < |a| && a[i].hpoId == id;
        assert a[i] in multiset(b);
      }
    }
    forall id ensures id in MatchIds(b) ==> id in MatchIds(a) {
      if id in MatchIds(b) {
        var i :| 0 <= i < |b| && b[i].hpoId == id;
        assert b[i] in multiset(a);
      }
    }
  }

  /**
   * Each result of a successful query carries its id's best score and the
   * text of the first hit reaching that score.
   */
  lemma QueryScores(index: Index, row: seq<int>, picks: seq<nat>)
    requires Answered(index, row, picks)
    ensures var hits := Collect(index, row, picks).value;
      var ms := QueryOutcome(index, row, picks).value;
      forall i :: 0 <= i < |ms| ==>
        ms[i].hpoId in HitIds(hits) &&
        ms[i].score == MaxScore(hits, ms[i].hpoId) &&
        ms[i].matchedText == hits[FirstBest(hits, ms[i].hpoId)].text
  {
    var hits := Collect(index, row, picks).value;
    var assembled := Assembled(index, row, picks);
    var ms := SortDesc(assembled, MatchScore);
    SortDescPermutation(assembled, MatchScore);
    forall i | 0 <= i < |ms|
      ensures ms[i].hpoId in HitIds(hits) &&
        ms[i].score == MaxScore(hits, ms[i].hpoId) &&
        ms[i].matchedText == hits[FirstBest(hits, ms[i].hpoId)].text
    {
      assert ms[i] in multiset(assembled);
      var j :| 0 <= j < |assembled| && assembled[j] == ms[i];
    }
  }

  /**
   * The results of a successful query are sorted by score, highest first, and
   * those of equal score come in the order their ids were first seen.
   */
  lemma QueryOrder(index: Index, row: seq<int>, picks: seq<nat>)
    requires Answered(index, row, picks)
    ensures var ms := QueryOutcome(index, row, picks).value;
      var assembled := Assembled(index, row, picks);
      SortedDesc(ms, MatchScore) &&
      MatchIds(assembled) == FirstSeen(HitIds(Collect(index, row, picks).value)) &&
      forall v :: WithKey(ms, MatchScore, v) == WithKey(assembled, MatchScore, v)
  {
    SortDescSpec(Assembled(index, row, picks), MatchScore);
  }

  /** No result scores below an index the top-k selection left out. */
  lemma QueryAboveUnselected(index: Index, row: seq<int>, picks: seq<nat>, x: nat)
    requires Answered(index, row, picks) && IsTopK(row, |picks|, picks)
    requires x < |row| && x !in picks
    ensures forall m :: m in QueryOutcome(index, row, picks).value ==> row[x] <= m.score
  {
    QueryScores(index, row, picks);
    CollectSpec(index, row, picks);
    var hits := Collect(index, row, picks).value;
    var ms := QueryOutcome(index, row, picks).value;
    forall m | m in ms ensures row[x] <= m.score {
      var i :| 0 <= i < |ms| && ms[i] == m;
      var f := FirstBest(hits, m.hpoId);
      assert hits[f].score == row[picks[f]];
    }
  }
}
