/**
 * `HPONormalizationTool.run` in src/tooluniverse/hpo_normalization_tool.py:
 * argument handling, then for each query, in order, the top-k selection over
 * its row of similarity scores with `k = min(top_k, N)`, the merge by HPO id
 * and the sorted results. Any exception raised on the way is caught and
 * turned into a `success: False` response.
 *
 * The similarity rows and the indices `topk` selects are inputs: they come
 * from the embedding model, which is not part of this model.
 */
module NormalizationTool {
  import opened Wrappers
  import opened Ranking
  import opened ToolMerge

  /** The `queries` argument: missing, a bare string, or a list of strings. */
  datatype Queries = Absent | Text(text: string) | Batch(items: seq<string>)

  /** The arguments `run` reads for retrieval; `top_k` may be missing. */
  datatype Arguments = Arguments(queries: Queries, topK: Option<int>)

  const DefaultTopK := 5

  /** One entry of `outputs`: the query and its sorted results. */
  datatype QueryOutput = QueryOutput(query: string, results: seq<Match>)

  /** The returned dict: `{"results", "count", "success": True}` or `{"error", "success": False}`. */
  datatype Response = Success(results: seq<QueryOutput>, count: nat) | Failure(error: ToolError)

  /**
   * The queries to answer: none when `queries` is missing or empty (the
   * `not queries` test), one for a bare string, else the list itself.
   */
  function QueryList(q: Queries): (r: Option<seq<string>>)
    ensures r.None? <==> q.Absent? || q == Text("") || q == Batch([])
    ensures q.Text? && q.text != "" ==> r == Some([q.text])
    ensures q.Batch? && q.items != [] ==> r == Some(q.items)
  {
    match q
    case Absent => None
    case Text(s) => if s == "" then None else Some([s])
    case Batch(xs) => if xs == [] then None else Some(xs)
  }

  function TopK(args: Arguments): int {
    if args.topK.Some? then args.topK.value else DefaultTopK
  }

  /** `k = min(top_k, len(hpo_embeddings))`. */
  function ClampK(topK: int, n: nat): (k: int)
    ensures k <= n && k <= topK && (k == n || k == topK)
  {
    if topK < n then topK else n
  }

  /**
   * What the embedding model supplies: one row of `n` scores per query, and,
   * when `k` is not negative, the indices `topk(k)` selects from it.
   */
  ghost predicate Retrieval(qs: seq<string>, n: nat, k: int, rows: seq<seq<int>>, picks: seq<seq<nat>>) {
    |rows| == |qs| && |picks| == |qs| &&
    forall i :: 0 <= i < |qs| ==> |rows[i]| == n && (k >= 0 ==> IsTopK(rows[i], k, picks[i]))
  }

  /** Selected indices within their rows, query by query. */
  predicate Selectable(count: nat, rows: seq<seq<int>>, picks: seq<seq<nat>>) {
    |rows| >= count && |picks| >= count &&
    forall i :: 0 <= i < count ==> forall j :: 0 <= j < |picks[i]| ==> picks[i][j] < |rows[i]|
  }

  /** The query loop: the outputs of the queries in order, or the first error. */
  function Answers(qs: seq<string>, index: Index, rows: seq<seq<int>>, picks: seq<seq<nat>>): Result<seq<QueryOutput>, ToolError>
    requires Selectable(|qs|, rows, picks)
  {
    if qs == [] then Ok([])
    else
      var i := |qs| - 1;
      match Answers(qs[..i], index, rows, picks)
      case Err(e) => Err(e)
      case Ok(outs) =>
        match QueryOutcome(index, rows[i], picks[i])
        case Err(e) => Err(e)
        case Ok(ms) => Ok(outs + [QueryOutput(qs[i], ms)])
  }

  /**
   * The `try` block once the queries are known: `topk(k)` raises for a
   * negative `k` at the first query; otherwise the query loop.
   */
  ghost function Outputs(qs: seq<string>, topK: int, index: Index, rows: seq<seq<int>>, picks: seq<seq<nat>>): Result<seq<QueryOutput>, ToolError>
    requires Retrieval(qs, index.size, ClampK(topK, index.size), rows, picks)
  {
    var k := ClampK(topK, index.size);
    if k < 0 then Err(TopKOutOfRange(k))
    else
      assert Selectable(|qs|, rows, picks);
      Answers(qs, index, rows, picks)
  }

  /** What `run` returns. */
  ghost function RunSpec(args: Arguments, index: Index, rows: seq<seq<int>>, picks: seq<seq<nat>>): Response
    requires QueryList(args.queries).Some? ==>
      Retrieval(QueryList(args.queries).value, index.size, ClampK(TopK(args), index.size), rows, picks)
  {
    match QueryList(args.queries)
    case None => Failure(MissingQueries)
    case Some(qs) =>
      match Outputs(qs, TopK(args), index, rows, picks)
      case Err(e) => Failure(e)
      case Ok(outs) => Success(outs, |outs|)
  }

  /** The body of the query loop after `topk`: raw hits, merge, results, sort. */
  method AnswerQuery(index: Index, row: seq<int>, picks: seq<nat>) returns (r: Result<seq<Match>, ToolError>)
    requires forall j :: 0 <= j < |picks| ==> picks[j] < |row|
    ensures r == QueryOutcome(index, row, picks)
  {
    var raw := CollectRaw(index, row, picks);
    if raw.Err? {
      return Err(IndexOutOfRange(raw.error));
    }
    var keys, merged, best := MergeHits(raw.value);
    MergeAllInv(raw.value);
    FirstSeenSpec(HitIds(raw.value));
    var assembled := Assemble(keys, merged, best);
    if assembled.Err? {
      return Err(NoBestMatch(assembled.error));
    }
    var finalResults := SortDesc(assembled.value, MatchScore);
    return Ok(finalResults);
  }

  /** The query loop of `run`, with `k` computed as each query starts. */
  method QueryLoop(queries: seq<string>, topK: int, index: Index, rows: seq<seq<int>>, picks: seq<seq<nat>>)
    returns (r: Result<seq<QueryOutput>, ToolError>)
    requires queries != []
    requires Retrieval(queries, index.size, ClampK(topK, index.size), rows, picks)
    ensures r == Outputs(queries, topK, index, rows, picks)
  {
    ghost var clamped := ClampK(topK, index.size);
    var outputs: seq<QueryOutput> := [];
    for i := 0 to |queries|
      invariant clamped < 0 ==> i == 0
      invariant clamped >= 0 ==> Selectable(|queries|, rows, picks) && Answers(queries[..i], index, rows, picks) == Ok(outputs)
    {
      var k := if topK < index.size then topK else index.size;
      if k < 0 {
        return Err(TopKOutOfRange(k));
      }
      assert queries[..i + 1][..i] == queries[..i];
      var results := AnswerQuery(index, rows[i], picks[i]);
      if results.Err? {
        AnswersErrorSticks(queries, index, rows, picks, i + 1);
        return Err(results.error);
      }
      outputs := outputs + [QueryOutput(queries[i], results.value)];
    }
    assert queries[..|queries|] == queries;
    return Ok(outputs);
  }

  /** `run`, statement by statement. */
  method Run(args: Arguments, index: Index, rows: seq<seq<int>>, picks: seq<seq<nat>>) returns (resp: Response)
    requires QueryList(args.queries).Some? ==>
      Retrieval(QueryList(args.queries).value, index.size, ClampK(TopK(args), index.size), rows, picks)
    ensures resp == RunSpec(args, index, rows, picks)
  {
    var queries: seq<string>;
    var topK := if args.topK.Some? then args.topK.value else DefaultTopK;
    match args.queries {
      case Absent => return Failure(MissingQueries);
      case Text(s) =>
        if s == "" { return Failure(MissingQueries); }
        queries := [s];
      case Batch(xs) =>
        if xs == [] { return Failure(MissingQueries); }
        queries := xs;
    }
    var outputs := QueryLoop(queries, topK, index, rows, picks);
    if outputs.Err? {
      return Failure(outputs.error);
    }
    return Success(outputs.value, |outputs.value|);
  }

  lemma {:induction false} AnswersErrorSticks(qs: seq<string>, index: Index, rows: seq<seq<int>>, picks: seq<seq<nat>>, i: nat)
    requires Selectable(|qs|, rows, picks)
    requires i <= |qs| && Answers(qs[..i], index, rows, picks).Err?
    ensures Answers(qs, index, rows, picks) == Answers(qs[..i], index, rows, picks)
    decreases |qs| - i
  {
    if i == |qs| {
      assert qs[..i] == qs;
    } else {
      assert qs[..|qs| - 1][..i] == qs[..i];
      AnswersErrorSticks(qs[..|qs| - 1], index, rows, picks, i);
    }
  }

  // ---------------------------------------------------------------------------
  // Properties of run
  // ---------------------------------------------------------------------------

  /** The query loop succeeds exactly when every query does, with one output per query, in order. */
  lemma {:induction false} AnswersSpec(qs: seq<string>, index: Index, rows: seq<seq<int>>, picks: seq<seq<nat>>)
    requires Selectable(|qs|, rows, picks)
    ensures Answers(qs, index, rows, picks).Ok? <==>
      forall i :: 0 <= i < |qs| ==> QueryOutcome(index, rows[i], picks[i]).Ok?
    ensures Answers(qs, index, rows, picks).Ok? ==>
      var outs := Answers(qs, index, rows, picks).value;
      |outs| == |qs| &&
      forall i :: 0 <= i < |qs| ==>
        outs[i] == QueryOutput(qs[i], QueryOutcome(index, rows[i], picks[i]).value)
  {
    if qs != [] {
      var n := |qs| - 1;
      var init := qs[..n];
      AnswersSpec(init, index, rows, picks);
      if Answers(init, index, rows, picks).Ok? && QueryOutcome(index, rows[n], picks[n]).Ok? {
        var outs := Answers(init, index, rows, picks).value;
        assert Answers(qs, index, rows, picks).value == outs + [QueryOutput(qs[n], QueryOutcome(index, rows[n], picks[n]).value)];
        forall i | 0 <= i < n
          ensures Answers(qs, index, rows, picks).value[i] == QueryOutput(qs[i], QueryOutcome(index, rows[i], picks[i]).value)
        {
          assert init[i] == qs[i];
        }
      } else if Answers(init, index, rows, picks).Err? {
        var k :| 0 <= k < n && QueryOutcome(index, rows[k], picks[k]).Err?;
      }
    }
  }

  /** A missing or empty `queries` argument, and only that, gives the MissingQueries failure. */
  lemma RunMissingQueries(args: Arguments, index: Index, rows: seq<seq<int>>, picks: seq<seq<nat>>)
    requires QueryList(args.queries).Some? ==>
      Retrieval(QueryList(args.queries).value, index.size, ClampK(TopK(args), index.size), rows, picks)
    ensures RunSpec(args, index, rows, picks) == Failure(MissingQueries) <==>
      args.queries.Absent? || args.queries == Text("") || args.queries == Batch([])
  {
    if QueryList(args.queries).Some? {
      var qs := QueryList(args.queries).value;
      var k := ClampK(TopK(args), index.size);
      if k >= 0 {
        assert Selectable(|qs|, rows, picks);
        AnswersSpec(qs, index, rows, picks);
        if Answers(qs, index, rows, picks).Err? {
          var i :| 0 <= i < |qs| && QueryOutcome(index, rows[i], picks[i]).Err?;
          QueryOutcomeFails(index, rows[i], picks[i]);
          AnswersError(qs, index, rows, picks);
        }
      }
    }
  }

  /** An error of the query loop is an error of one of its queries. */
  lemma {:induction false} AnswersError(qs: seq<string>, index: Index, rows: seq<seq<int>>, picks: seq<seq<nat>>)
    requires Selectable(|qs|, rows, picks) && Answers(qs, index, rows, picks).Err?
    ensures exists i :: 0 <= i < |qs| && QueryOutcome(index, rows[i], picks[i]) == Err(Answers(qs, index, rows, picks).error)
  {
    var init := qs[..|qs| - 1];
    if Answers(init, index, rows, picks).Err? {
      AnswersError(init, index, rows, picks);
      var i :| 0 <= i < |init| && QueryOutcome(index, rows[i], picks[i]) == Err(Answers(init, index, rows, picks).error);
    }
  }

  /** A non-empty bare string is answered as the one-element batch holding it. */
  lemma RunBareString(s: string, topK: Option<int>, index: Index, rows: seq<seq<int>>, picks: seq<seq<nat>>)
    requires s != ""
    requires Retrieval([s], index.size, ClampK(if topK.Some? then topK.value else DefaultTopK, index.size), rows, picks)
    ensures RunSpec(Arguments(Text(s), topK), index, rows, picks) == RunSpec(Arguments(Batch([s]), topK), index, rows, picks)
  {
  }

  /**
   * A successful call has one output per query, in input order, each with
   * its query and that query's results, and `count` is the number of outputs.
   */
  lemma RunShape(args: Arguments, index: Index, rows: seq<seq<int>>, picks: seq<seq<nat>>)
    requires QueryList(args.queries).Some? ==>
      Retrieval(QueryList(args.queries).value, index.size, ClampK(TopK(args), index.size), rows, picks)
    requires RunSpec(args, index, rows, picks).Success?
    ensures QueryList(args.queries).Some?
    ensures var qs := QueryList(args.queries).value;
      var resp := RunSpec(args, index, rows, picks);
      resp.count == |resp.results| == |qs| &&
      Selectable(|qs|, rows, picks) &&
      forall i :: 0 <= i < |qs| ==>
        resp.results[i].query == qs[i] &&
        QueryOutcome(index, rows[i], picks[i]) == Ok(resp.results[i].results)
  {
    var qs := QueryList(args.queries).value;
    assert Selectable(|qs|, rows, picks);
    AnswersSpec(qs, index, rows, picks);
  }

  /**
   * The call succeeds exactly when there are queries, `k` is not negative,
   * and for every query the selected indices lie within both arrays and
   * every retrieved id has a hit scoring above `0.0`.
   */
  lemma RunSucceedsIff(args: Arguments, index: Index, rows: seq<seq<int>>, picks: seq<seq<nat>>)
    requires QueryList(args.queries).Some? ==>
      Retrieval(QueryList(args.queries).value, index.size, ClampK(TopK(args), index.size), rows, picks)
    ensures RunSpec(args, index, rows, picks).Success? <==>
      QueryList(args.queries).Some? && ClampK(TopK(args), index.size) >= 0 &&
      Selectable(|QueryList(args.queries).value|, rows, picks) &&
      forall i :: 0 <= i < |QueryList(args.queries).value| ==>
        Collect(index, rows[i], picks[i]).Ok? && AllPositive(Collect(index, rows[i], picks[i]).value)
  {
    if QueryList(args.queries).Some? && ClampK(TopK(args), index.size) >= 0 {
      var qs := QueryList(args.queries).value;
      assert Selectable(|qs|, rows, picks);
      AnswersSpec(qs, index, rows, picks);
      forall i | 0 <= i < |qs| ensures QueryOutcome(index, rows[i], picks[i]).Ok? <==>
        Collect(index, rows[i], picks[i]).Ok? && AllPositive(Collect(index, rows[i], picks[i]).value)
      {
        QueryOutcomeFails(index, rows[i], picks[i]);
      }
    }
  }

  /**
   * In a successful call, each query has at most `min(top_k, N)` results,
   * whatever `top_k` is: a large `top_k` is clamped, not an error.
   */
  lemma RunLengthBound(args: Arguments, index: Index, rows: seq<seq<int>>, picks: seq<seq<nat>>, i: nat)
    requires QueryList(args.queries).Some? ==>
      Retrieval(QueryList(args.queries).value, index.size, ClampK(TopK(args), index.size), rows, picks)
    requires RunSpec(args, index, rows, picks).Success?
    requires i < |RunSpec(args, index, rows, picks).results|
    ensures |RunSpec(args, index, rows, picks).results[i].results| <= ClampK(TopK(args), index.size)
    ensures ClampK(TopK(args), index.size) <= TopK(args) && ClampK(TopK(args), index.size) <= index.size
  {
    RunShape(args, index, rows, picks);
    QueryIds(index, rows[i], picks[i]);
  }
}
