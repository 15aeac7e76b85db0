/**
 * The two merge rules side by side: `HPONormalizationTool.run` in
 * src/tooluniverse/hpo_normalization_tool.py updates an entry only on a
 * strictly higher score and looks up a best text for every key, while
 * `normalize_batch_to_hpo` in data/human-phenotype-ontology/test_sim_serch.py
 * takes `max(merged[id], score)`. On the same selections they agree, texts
 * aside, exactly when every retrieved id scores above `0.0`; otherwise the
 * tool fails where the batch variant reports the id at `0.0`.
 */
module MergeContrast {
  import opened Wrappers
  import opened Ranking
  import opened ToolMerge
  import opened BatchNormalize
  import opened NormalizationTool

  /** A result of the tool without its matched text. */
  function Project(m: Match): Scored {
    Scored(m.hpoId, m.score)
  }

  function ProjectAll(ms: seq<Match>): (ss: seq<Scored>)
    ensures |ss| == |ms| && forall i :: 0 <= i < |ms| ==> ss[i] == Project(ms[i])
  {
    seq(|ms|, i requires 0 <= i < |ms| => Project(ms[i]))
  }

  lemma ProjectAllCons(x: Match, t: seq<Match>)
    ensures ProjectAll([x] + t) == [Project(x)] + ProjectAll(t)
  {
  }

  lemma {:induction false} InsertProject(x: Match, t: seq<Match>)
    ensures ProjectAll(Insert(x, t, MatchScore)) == Insert(Project(x), ProjectAll(t), ScoredScore)
    decreases |t|
  {
    if t != [] {
      assert ProjectAll(t)[0] == Project(t[0]);
      assert ProjectAll(t)[1..] == ProjectAll(t[1..]);
      ProjectAllCons(x, t);
      if MatchScore(t[0]) > MatchScore(x) {
        InsertProject(x, t[1..]);
        ProjectAllCons(t[0], Insert(x, t[1..], MatchScore));
      }
    }
  }

  /** Dropping the texts commutes with the sort, the key being the score in both. */
  lemma {:induction false} SortProject(s: seq<Match>)
    ensures ProjectAll(SortDesc(s, MatchScore)) == SortDesc(ProjectAll(s), ScoredScore)
  {
    if s != [] {
      SortProject(s[1..]);
      InsertProject(s[0], SortDesc(s[1..], MatchScore));
      assert ProjectAll(s)[0] == Project(s[0]);
      assert ProjectAll(s)[1..] == ProjectAll(s[1..]);
    }
  }

  /** Where the tool answers a query, its results without texts are those of the batch variant. */
  lemma QueryAgree(index: Index, row: seq<int>, picks: seq<nat>)
    requires |row| <= |index.ids| && |row| <= |index.texts|
    requires Answered(index, row, picks)
    ensures ProjectAll(QueryOutcome(index, row, picks).value) == BatchQuery(index, row, picks)
  {
    QueryOutcomeFails(index, row, picks);
    var hits := Collect(index, row, picks).value;
    var a := Assembled(index, row, picks);
    var u := Unsorted(index, row, picks);
    assert |a| == |u| by {
      assert |MatchIds(a)| == |ScoredIds(u)|;
    }
    forall i | 0 <= i < |a| ensures ProjectAll(a)[i] == u[i] {
      assert MatchIds(a)[i] == ScoredIds(u)[i];
    }
    assert ProjectAll(a) == u;
    SortProject(a);
  }

  /**
   * Where the tool fails on a query whose indices are all valid, the failing
   * id is among the batch variant's results for it, reported at `0.0`.
   */
  lemma QueryDisagree(index: Index, row: seq<int>, picks: seq<nat>)
    requires |row| <= |index.ids| && |row| <= |index.texts|
    requires forall j :: 0 <= j < |picks| ==> picks[j] < |row|
    requires QueryOutcome(index, row, picks).Err?
    ensures QueryOutcome(index, row, picks).error.NoBestMatch?
    ensures Scored(QueryOutcome(index, row, picks).error.hpoId, 0) in BatchQuery(index, row, picks)
  {
    QueryOutcomeFails(index, row, picks);
    assert InRange(index, picks) by {
      CollectSpec(index, row, picks);
    }
    var hits := Collect(index, row, picks).value;
    var id := QueryOutcome(index, row, picks).error.hpoId;
    var rs := BatchQuery(index, row, picks);
    assert id in ScoredIds(rs) by {
      HitIdsSelected(index, row, picks);
      BatchQueryIds(index, row, picks);
    }
    var i :| 0 <= i < |rs| && ScoredIds(rs)[i] == id;
    BatchQueryScores(index, row, picks);
    assert rs[i] == Scored(id, 0);
  }

  /**
   * On a batch of queries with `0 <= top_k <= N`, a successful call of the
   * tool gives, query by query and texts aside, what the batch variant gives.
   */
  lemma RunAgreesWithBatch(qs: seq<string>, topK: nat, index: Index, rows: seq<seq<int>>, picks: seq<seq<nat>>)
    requires qs != [] && BatchIndex(index, topK) && BatchRetrieval(qs, index, topK, rows, picks)
    requires RunSpec(Arguments(Batch(qs), Some(topK)), index, rows, picks).Success?
    ensures var tool := RunSpec(Arguments(Batch(qs), Some(topK)), index, rows, picks).results;
      var batch := BatchSpec(qs, index, topK, rows, picks);
      |tool| == |batch| &&
      forall i :: 0 <= i < |tool| ==>
        tool[i].query == batch[i].query && ProjectAll(tool[i].results) == batch[i].results
  {
    var args := Arguments(Batch(qs), Some(topK));
    RunShape(args, index, rows, picks);
    BatchShape(qs, index, topK, rows, picks);
    var tool := RunSpec(args, index, rows, picks).results;
    forall i | 0 <= i < |tool| ensures ProjectAll(tool[i].results) == BatchSpec(qs, index, topK, rows, picks)[i].results {
      QueryAgree(index, rows[i], picks[i]);
    }
  }

  /**
   * On the same batch, a failing call of the tool fails on an id without a
   * hit above `0.0`, which the batch variant reports at `0.0`.
   */
  lemma RunFailsWhereBatchReportsZero(qs: seq<string>, topK: nat, index: Index, rows: seq<seq<int>>, picks: seq<seq<nat>>)
    requires qs != [] && BatchIndex(index, topK) && BatchRetrieval(qs, index, topK, rows, picks)
    requires RunSpec(Arguments(Batch(qs), Some(topK)), index, rows, picks).Failure?
    ensures RunSpec(Arguments(Batch(qs), Some(topK)), index, rows, picks).error.NoBestMatch?
    ensures var batch := BatchSpec(qs, index, topK, rows, picks);
      var id := RunSpec(Arguments(Batch(qs), Some(topK)), index, rows, picks).error.hpoId;
      exists i :: 0 <= i < |batch| && Scored(id, 0) in batch[i].results
  {
    var args := Arguments(Batch(qs), Some(topK));
    assert Selectable(|qs|, rows, picks);
    AnswersError(qs, index, rows, picks);
    BatchShape(qs, index, topK, rows, picks);
    var i :| 0 <= i < |qs| && QueryOutcome(index, rows[i], picks[i]) == Err(Answers(qs, index, rows, picks).error);
    QueryDisagree(index, rows[i], picks[i]);
  }
}
