/**
 * What src/tooluniverse/hpo_normalization_tool.py (`run`) and
 * data/human-phenotype-ontology/test_sim_serch.py (`normalize_batch_to_hpo`)
 * share: the loaded index, the top-k selection over one row of similarity
 * scores, the synonym-level hits it yields, ids in first-seen order, the best
 * score of an id, and the stable descending sort.
 *
 * Similarity scores are integers: only their order and the default `0.0` of
 * the merge matter.
 */
module Ranking {
  import opened Wrappers

  /** The loaded index: the number of embeddings, and the `hpo_texts` and `hpo_ids` arrays. */
  datatype Index = Index(size: nat, texts: seq<string>, ids: seq<string>)

  /** A synonym-level match, `{"hpo_id", "matched_text", "score"}`. */
  datatype Hit = Hit(hpoId: string, text: string, score: int)

  // ---------------------------------------------------------------------------
  // Top-k selection
  // ---------------------------------------------------------------------------

  /**
   * What `scores[i].topk(k)` returns, as indices: `k` distinct positions of
   * the row, in non-increasing score order, none scoring below a position
   * left out. Equal scores may come in any order.
   */
  predicate IsTopK(row: seq<int>, k: nat, picks: seq<nat>) {
    |picks| == k &&
    (forall j :: 0 <= j < k ==> picks[j] < |row|) &&
    (forall j, l :: 0 <= j < l < k ==> picks[j] != picks[l]) &&
    (forall j :: 0 <= j && j + 1 < k ==> row[picks[j]] >= row[picks[j + 1]]) &&
    (forall x, j :: 0 <= x < |row| && x !in picks && 0 <= j < k ==> row[x] <= row[picks[j]])
  }

  /**
   * The raw results of one query: for each selected index, in order, the id,
   * the text and the score at that index. An index past the end of `hpo_ids`
   * or `hpo_texts` raises IndexError; the error is that index.
   */
  function Collect(index: Index, row: seq<int>, picks: seq<nat>): Result<seq<Hit>, nat>
    requires forall j :: 0 <= j < |picks| ==> picks[j] < |row|
  {
    if picks == [] then Ok([])
    else
      var p := picks[|picks| - 1];
      match Collect(index, row, picks[..|picks| - 1])
      case Err(e) => Err(e)
      case Ok(hits) =>
        if p >= |index.ids| || p >= |index.texts| then Err(p)
        else Ok(hits + [Hit(index.ids[p], index.texts[p], row[p])])
  }

  /** The inner loop that fills `raw_results`. */
  method CollectRaw(index: Index, row: seq<int>, picks: seq<nat>) returns (r: Result<seq<Hit>, nat>)
    requires forall j :: 0 <= j < |picks| ==> picks[j] < |row|
    ensures r == Collect(index, row, picks)
  {
    var raw: seq<Hit> := [];
    for j := 0 to |picks|
      invariant Collect(index, row, picks[..j]) == Ok(raw)
    {
      var idx := picks[j];
      assert picks[..j + 1][..j] == picks[..j];
      if idx >= |index.ids| || idx >= |index.texts| {
        CollectErrorSticks(index, row, picks, j + 1);
        return Err(idx);
      }
      raw := raw + [Hit(index.ids[idx], index.texts[idx], row[idx])];
    }
    assert picks[..|picks|] == picks;
    r := Ok(raw);
  }

  lemma {:induction false} CollectErrorSticks(index: Index, row: seq<int>, picks: seq<nat>, j: nat)
    requires forall l :: 0 <= l < |picks| ==> picks[l] < |row|
    requires j <= |picks| && Collect(index, row, picks[..j]).Err?
    ensures Collect(index, row, picks) == Collect(index, row, picks[..j])
    decreases |picks| - j
  {
    if j == |picks| {
      assert picks[..j] == picks;
    } else {
      assert picks[..|picks| - 1][..j] == picks[..j];
      CollectErrorSticks(index, row, picks[..|picks| - 1], j);
    }
  }

  /** Every selected index within both arrays. */
  predicate InRange(index: Index, picks: seq<nat>) {
    forall j :: 0 <= j < |picks| ==> picks[j] < |index.ids| && picks[j] < |index.texts|
  }

  /**
   * Collecting fails exactly when an index is out of range, naming the first
   * such index; otherwise hit `j` is what index `picks[j]` holds.
   */
  lemma {:induction false} CollectSpec(index: Index, row: seq<int>, picks: seq<nat>)
    requires forall j :: 0 <= j < |picks| ==> picks[j] < |row|
    ensures Collect(index, row, picks).Ok? <==> InRange(index, picks)
    ensures Collect(index, row, picks).Err? ==> Collect(index, row, picks).error == picks[FirstOut(index, picks)]
    ensures Collect(index, row, picks).Ok? ==>
      var hits := Collect(index, row, picks).value;
      |hits| == |picks| &&
      forall j :: 0 <= j < |picks| ==>
        hits[j] == Hit(index.ids[picks[j]], index.texts[picks[j]], row[picks[j]])
  {
    if picks != [] {
      var init := picks[..|picks| - 1];
      CollectSpec(index, row, init);
      assert forall j :: 0 <= j < |init| ==> init[j] == picks[j];
      if !InRange(index, picks) {
        FirstOutSnoc(index, picks);
      }
    }
  }

  /** The first selected index outside one of the arrays. */
  function FirstOut(index: Index, picks: seq<nat>): (j: nat)
    requires !InRange(index, picks)
    ensures j < |picks| && !InRange(index, [picks[j]]) && InRange(index, picks[..j])
  {
    if picks[0] >= |index.ids| || picks[0] >= |index.texts| then
      assert [picks[0]][0] == picks[0];
      0
    else
      var j := FirstOut(index, picks[1..]);
      assert picks[..j + 1] == [picks[0]] + picks[1..][..j];
      j + 1
  }

  lemma FirstOutSnoc(index: Index, picks: seq<nat>)
    requires !InRange(index, picks)
    ensures var init := picks[..|picks| - 1];
      FirstOut(index, picks) == if InRange(index, init) then |picks| - 1 else FirstOut(index, init)
  {
    var init := picks[..|picks| - 1];
    var j := FirstOut(index, picks);
    if InRange(index, init) {
      var last := |picks| - 1;
      assert picks[..last] == init;
      assert !InRange(index, [picks[last]]) by {
        var l :| 0 <= l < |picks| && !(picks[l] < |index.ids| && picks[l] < |index.texts|);
        assert [picks[last]][0] == picks[last];
      }
      FirstOutUnique(index, picks, j, last);
    } else {
      var k := FirstOut(index, init);
      assert picks[..k] == init[..k];
      FirstOutUnique(index, picks, j, k);
    }
  }

  /** The first index out of range is unique. */
  lemma FirstOutUnique(index: Index, picks: seq<nat>, j: nat, k: nat)
    requires j < |picks| && !InRange(index, [picks[j]]) && InRange(index, picks[..j])
    requires k < |picks| && !InRange(index, [picks[k]]) && InRange(index, picks[..k])
    ensures j == k
  {
    forall l | 0 <= l < j && l < k ensures picks[..j][l] == picks[..k][l] {}
  }

  /** The ids of the hits, position by position. */
  function HitIds(hits: seq<Hit>): (ids: seq<string>)
    ensures |ids| == |hits| && forall i :: 0 <= i < |hits| ==> ids[i] == hits[i].hpoId
  {
    seq(|hits|, i requires 0 <= i < |hits| => hits[i].hpoId)
  }

  /** The ids of the raw hits are the ids at the selected indices. */
  lemma HitIdsSelected(index: Index, row: seq<int>, picks: seq<nat>)
    requires forall j :: 0 <= j < |picks| ==> picks[j] < |row|
    requires Collect(index, row, picks).Ok?
    ensures InRange(index, picks)
    ensures forall id :: id in HitIds(Collect(index, row, picks).value) <==>
      exists j :: 0 <= j < |picks| && index.ids[picks[j]] == id
  {
    CollectSpec(index, row, picks);
    var hits := Collect(index, row, picks).value;
    forall id ensures id in HitIds(hits) <==> exists j :: 0 <= j < |picks| && index.ids[picks[j]] == id {
      if id in HitIds(hits) {
        var j :| 0 <= j < |hits| && HitIds(hits)[j] == id;
        assert index.ids[picks[j]] == id;
      }
    }
  }

  lemma HitIdsSnoc(hits: seq<Hit>, h: Hit)
    ensures HitIds(hits + [h]) == HitIds(hits) + [h.hpoId]
  {
  }

  // ---------------------------------------------------------------------------
  // Ids in the order they are first seen (dict insertion order)
  // ---------------------------------------------------------------------------

  predicate Distinct(s: seq<string>) {
    forall i, j :: 0 <= i < j < |s| ==> s[i] != s[j]
  }

  /** The keys of a dict filled from `s`, in insertion order. */
  function FirstSeen(s: seq<string>): seq<string> {
    if s == [] then []
    else
      var seen := FirstSeen(s[..|s| - 1]);
      if s[|s| - 1] in seen then seen else seen + [s[|s| - 1]]
  }

  /** Where `x` first occurs in `s`. */
  function FirstIndex(s: seq<string>, x: string): (i: nat)
    requires x in s
    ensures i < |s| && s[i] == x && forall j :: 0 <= j < i ==> s[j] != x
  {
    if s[0] == x then 0 else 1 + FirstIndex(s[1..], x)
  }

  lemma FirstIndexSnoc(s: seq<string>, y: string, x: string)
    requires x in s
    ensures x in s + [y] && FirstIndex(s + [y], x) == FirstIndex(s, x)
  {
    var i, k := FirstIndex(s + [y], x), FirstIndex(s, x);
    assert (s + [y])[k] == x;
    assert i <= k;
    assert (s + [y])[i] == s[i];
  }

  /**
   * The first-seen ids are distinct, are exactly the ids of `s`, and come in
   * the order of their first occurrence.
   */
  lemma {:induction false} FirstSeenSpec(s: seq<string>)
    ensures Distinct(FirstSeen(s))
    ensures forall x :: x in FirstSeen(s) <==> x in s
    ensures forall i, j :: 0 <= i < j < |FirstSeen(s)| ==>
      FirstSeen(s)[i] in s && FirstSeen(s)[j] in s &&
      FirstIndex(s, FirstSeen(s)[i]) < FirstIndex(s, FirstSeen(s)[j])
    ensures |FirstSeen(s)| <= |s|
  {
    if s != [] {
      var init, y := s[..|s| - 1], s[|s| - 1];
      assert s == init + [y];
      FirstSeenSpec(init);
      var seen := FirstSeen(init);
      forall x | x in init ensures FirstIndex(s, x) == FirstIndex(init, x) {
        FirstIndexSnoc(init, y, x);
      }
      if y !in seen {
        assert y !in init;
        assert FirstIndex(s, y) == |s| - 1;
        var r := seen + [y];
        forall i, j | 0 <= i < j < |r| ensures r[i] in s && r[j] in s && FirstIndex(s, r[i]) < FirstIndex(s, r[j]) {
          assert r[i] in init;
          if j < |seen| {
            assert r[j] == seen[j];
          } else {
            assert r[j] == y;
          }
        }
      }
    }
  }

  // ---------------------------------------------------------------------------
  // Best score of an id
  // ---------------------------------------------------------------------------

  /** A score floored at the `0.0` that both merges start an id from. */
  function Max0(x: int): int { if x > 0 then x else 0 }

  /** The highest score among the hits with id `id`. */
  function MaxScore(hits: seq<Hit>, id: string): (m: int)
    requires id in HitIds(hits)
    ensures exists i :: 0 <= i < |hits| && hits[i].hpoId == id && hits[i].score == m
    ensures forall i :: 0 <= i < |hits| && hits[i].hpoId == id ==> hits[i].score <= m
  {
    var init, h := hits[..|hits| - 1], hits[|hits| - 1];
    assert forall i :: 0 <= i < |init| ==> init[i] == hits[i];
    if h.hpoId != id then
      assert id in HitIds(init) by {
        var i :| 0 <= i < |hits| && HitIds(hits)[i] == id;
        assert HitIds(init)[i] == id;
      }
      MaxScore(init, id)
    else if id !in HitIds(init) then h.score
    else if MaxScore(init, id) >= h.score then MaxScore(init, id)
    else h.score
  }

  /** A hit with another id leaves the best score of `id` as it was. */
  lemma MaxScoreSnocOther(hits: seq<Hit>, h: Hit, id: string)
    requires id in HitIds(hits) && h.hpoId != id
    ensures id in HitIds(hits + [h]) && MaxScore(hits + [h], id) == MaxScore(hits, id)
  {
    HitIdsSnoc(hits, h);
    assert (hits + [h])[..|hits|] == hits;
  }

  /** A hit with id `id` raises its best score to the hit's score if that is higher. */
  lemma MaxScoreSnocSame(hits: seq<Hit>, h: Hit)
    ensures h.hpoId in HitIds(hits + [h])
    ensures MaxScore(hits + [h], h.hpoId) ==
      if h.hpoId in HitIds(hits) && MaxScore(hits, h.hpoId) >= h.score then MaxScore(hits, h.hpoId) else h.score
  {
    HitIdsSnoc(hits, h);
    assert (hits + [h])[..|hits|] == hits;
  }

  /** Where the best score of `id` is first reached. */
  function FirstBest(hits: seq<Hit>, id: string): (i: nat)
    requires id in HitIds(hits)
    ensures i < |hits| && hits[i].hpoId == id && hits[i].score == MaxScore(hits, id)
    ensures forall j :: 0 <= j < i && hits[j].hpoId == id ==> hits[j].score < MaxScore(hits, id)
  {
    FirstBestFrom(hits, id, 0)
  }

  function FirstBestFrom(hits: seq<Hit>, id: string, from: nat): (i: nat)
    requires id in HitIds(hits) && from <= |hits|
    requires exists i :: from <= i < |hits| && hits[i].hpoId == id && hits[i].score == MaxScore(hits, id)
    requires forall j :: 0 <= j < from && hits[j].hpoId == id ==> hits[j].score < MaxScore(hits, id)
    ensures from <= i < |hits| && hits[i].hpoId == id && hits[i].score == MaxScore(hits, id)
    ensures forall j :: 0 <= j < i && hits[j].hpoId == id ==> hits[j].score < MaxScore(hits, id)
    decreases |hits| - from
  {
    if hits[from].hpoId == id && hits[from].score == MaxScore(hits, id) then from
    else FirstBestFrom(hits, id, from + 1)
  }

  /** Any index with the properties FirstBest promises is FirstBest; `m` is the best score. */
  lemma FirstBestUnique(hits: seq<Hit>, id: string, i: nat, m: int)
    requires id in HitIds(hits) && m == MaxScore(hits, id)
    requires i < |hits| && hits[i].hpoId == id && hits[i].score == m
    requires forall j :: 0 <= j < i && hits[j].hpoId == id ==> hits[j].score < m
    ensures i == FirstBest(hits, id)
  {
  }

  /** Each hit scores at most the best score of its id. */
  lemma MaxScoreBound(hits: seq<Hit>, j: nat)
    requires j < |hits|
    ensures hits[j].hpoId in HitIds(hits) && hits[j].score <= MaxScore(hits, hits[j].hpoId)
  {
    assert HitIds(hits)[j] == hits[j].hpoId;
  }

  /** A hit with another id leaves where the best score of `id` is first reached. */
  lemma FirstBestSnocOther(hits: seq<Hit>, h: Hit, id: string)
    requires id in HitIds(hits) && h.hpoId != id
    ensures id in HitIds(hits + [h]) && FirstBest(hits + [h], id) == FirstBest(hits, id)
  {
    var hs := hits + [h];
    MaxScoreSnocOther(hits, h, id);
    var m := MaxScore(hs, id);
    assert m == MaxScore(hits, id);
    var i := FirstBest(hits, id);
    forall j | 0 <= j < i && hs[j].hpoId == id ensures hs[j].score < m {
      assert hs[j] == hits[j];
    }
    assert hs[i] == hits[i];
    FirstBestUnique(hs, id, i, m);
  }

  /** A hit with a new id, or above the best score so far, is where the best is first reached. */
  lemma FirstBestSnocNew(hits: seq<Hit>, h: Hit)
    requires h.hpoId !in HitIds(hits) || h.score > MaxScore(hits, h.hpoId)
    ensures h.hpoId in HitIds(hits + [h]) && FirstBest(hits + [h], h.hpoId) == |hits|
  {
    var hs := hits + [h];
    var id := h.hpoId;
    MaxScoreSnocSame(hits, h);
    var m := MaxScore(hs, id);
    assert m == h.score;
    forall j | 0 <= j < |hits| && hs[j].hpoId == id ensures hs[j].score < m {
      assert hs[j] == hits[j];
      MaxScoreBound(hits, j);
    }
    assert hs[|hits|] == h;
    FirstBestUnique(hs, id, |hits|, m);
  }

  /** A hit with an id already seen and no higher score leaves where its best is first reached. */
  lemma FirstBestSnocKeep(hits: seq<Hit>, h: Hit)
    requires h.hpoId in HitIds(hits) && h.score <= MaxScore(hits, h.hpoId)
    ensures h.hpoId in HitIds(hits + [h]) && FirstBest(hits + [h], h.hpoId) == FirstBest(hits, h.hpoId)
  {
    var hs := hits + [h];
    var id := h.hpoId;
    MaxScoreSnocSame(hits, h);
    var m := MaxScore(hs, id);
    assert m == MaxScore(hits, id);
    var i := FirstBest(hits, id);
    forall j | 0 <= j < i && hs[j].hpoId == id ensures hs[j].score < m {
      assert hs[j] == hits[j];
    }
    assert hs[i] == hits[i];
    FirstBestUnique(hs, id, i, m);
  }

  // ---------------------------------------------------------------------------
  // Stable descending sort: `sorted(..., key=score, reverse=True)`
  // ---------------------------------------------------------------------------

  /** `x` placed before the first element whose key is not above its own. */
  function Insert<T>(x: T, t: seq<T>, key: T -> int): seq<T> {
    if t == [] then [x]
    else if key(t[0]) <= key(x) then [x] + t
    else [t[0]] + Insert(x, t[1..], key)
  }

  /** An insertion sort: stable, highest key first. */
  function SortDesc<T>(s: seq<T>, key: T -> int): seq<T> {
    if s == [] then [] else Insert(s[0], SortDesc(s[1..], key), key)
  }

  predicate SortedDesc<T>(s: seq<T>, key: T -> int) {
    forall i, j :: 0 <= i < j < |s| ==> key(s[i]) >= key(s[j])
  }

  /** The elements of `s` whose key is `v`, in order. */
  function WithKey<T>(s: seq<T>, key: T -> int, v: int): seq<T> {
    if s == [] then []
    else if key(s[0]) == v then [s[0]] + WithKey(s[1..], key, v)
    else WithKey(s[1..], key, v)
  }

  /** Insertion puts `x` after every element with a higher key and before the rest. */
  lemma {:induction false} InsertSplit<T>(x: T, t: seq<T>, key: T -> int) returns (j: nat)
    ensures j <= |t| && Insert(x, t, key) == t[..j] + [x] + t[j..]
    ensures forall i :: 0 <= i < j ==> key(t[i]) > key(x)
    ensures j < |t| ==> key(t[j]) <= key(x)
    decreases |t|
  {
    if t == [] {
      j := 0;
    } else if key(t[0]) <= key(x) {
      j := 0;
    } else {
      var j' := InsertSplit(x, t[1..], key);
      j := j' + 1;
      assert t[1..][..j'] == t[1..j];
      assert t[1..][j'..] == t[j..];
      assert [t[0]] + t[1..j] == t[..j];
    }
  }

  lemma {:induction false} InsertSorted<T>(x: T, t: seq<T>, key: T -> int)
    requires SortedDesc(t, key)
    ensures SortedDesc(Insert(x, t, key), key)
  {
    var j := InsertSplit(x, t, key);
    var r := Insert(x, t, key);
    forall a, b | 0 <= a < b < |r| ensures key(r[a]) >= key(r[b]) {
      if a < j {
        assert r[a] == t[a];
        if b < j { assert r[b] == t[b]; }
        else if b == j { assert r[b] == x; }
        else { assert r[b] == t[b - 1]; }
      } else if a == j {
        assert r[a] == x && r[b] == t[b - 1];
        assert key(t[j]) <= key(x);
      } else {
        assert r[a] == t[a - 1] && r[b] == t[b - 1];
      }
    }
  }

  /** The sort puts the highest key first. */
  lemma {:induction false} SortDescSorted<T>(s: seq<T>, key: T -> int)
    ensures SortedDesc(SortDesc(s, key), key)
  {
    if s != [] {
      SortDescSorted(s[1..], key);
      InsertSorted(s[0], SortDesc(s[1..], key), key);
    }
  }

  /** Insertion adds `x` and nothing else. */
  lemma {:induction false} InsertMultiset<T>(x: T, t: seq<T>, key: T -> int)
    ensures multiset(Insert(x, t, key)) == multiset{x} + multiset(t)
  {
    if t != [] && key(t[0]) > key(x) {
      InsertMultiset(x, t[1..], key);
      assert t == [t[0]] + t[1..];
    }
  }

  /** The sort is a permutation of its input. */
  lemma {:induction false} SortDescPermutation<T>(s: seq<T>, key: T -> int)
    ensures multiset(SortDesc(s, key)) == multiset(s)
  {
    if s != [] {
      SortDescPermutation(s[1..], key);
      InsertMultiset(s[0], SortDesc(s[1..], key), key);
      assert s == [s[0]] + s[1..];
    }
  }

  /** The sort is stable: the elements of each key keep their order. */
  lemma {:induction false} SortDescStable<T>(s: seq<T>, key: T -> int, v: int)
    ensures WithKey(SortDesc(s, key), key, v) == WithKey(s, key, v)
  {
    if s != [] {
      var x, t := s[0], SortDesc(s[1..], key);
      SortDescStable(s[1..], key, v);
      var j := InsertSplit(x, t, key);
      var a, b := t[..j], t[j..];
      assert t == a + b;
      WithKeyAppend(a + [x], b, key, v);
      WithKeyAppend(a, [x], key, v);
      WithKeyAppend(a, b, key, v);
      assert [x][1..] == [];
      assert WithKey([x], key, v) == if key(x) == v then [x] else [];
      assert WithKey(s, key, v) == (if key(x) == v then [x] else []) + WithKey(s[1..], key, v);
      if key(x) == v {
        WithKeyAbove(a, key, v);
      }
    }
  }

  /** The three together: sorted, a permutation, stable. */
  lemma SortDescSpec<T>(s: seq<T>, key: T -> int)
    ensures SortedDesc(SortDesc(s, key), key)
    ensures multiset(SortDesc(s, key)) == multiset(s)
    ensures forall v :: WithKey(SortDesc(s, key), key, v) == WithKey(s, key, v)
  {
    SortDescSorted(s, key);
    SortDescPermutation(s, key);
    forall v ensures WithKey(SortDesc(s, key), key, v) == WithKey(s, key, v) {
      SortDescStable(s, key, v);
    }
  }

  lemma {:induction false} WithKeyAppend<T>(a: seq<T>, b: seq<T>, key: T -> int, v: int)
    ensures WithKey(a + b, key, v) == WithKey(a, key, v) + WithKey(b, key, v)
  {
    if a != [] {
      assert (a + b)[1..] == a[1..] + b;
      WithKeyAppend(a[1..], b, key, v);
    } else {
      assert a + b == b;
    }
  }

  lemma {:induction false} WithKeyAbove<T>(a: seq<T>, key: T -> int, v: int)
    requires forall i :: 0 <= i < |a| ==> key(a[i]) > v
    ensures WithKey(a, key, v) == []
  {
    if a != [] {
      WithKeyAbove(a[1..], key, v);
    }
  }

  /** Inserting an element whose projection is new keeps the projections distinct. */
  lemma InsertDistinct<T>(x: T, t: seq<T>, j: nat, proj: T -> string)
    requires j <= |t|
    requires forall a, b :: 0 <= a < b < |t| ==> proj(t[a]) != proj(t[b])
    requires forall y :: y in t ==> proj(y) != proj(x)
    ensures var r := t[..j] + [x] + t[j..];
      forall a, b :: 0 <= a < b < |r| ==> proj(r[a]) != proj(r[b])
  {
    var r := t[..j] + [x] + t[j..];
    forall a, b | 0 <= a < b < |r| ensures proj(r[a]) != proj(r[b]) {
      if a < j {
        assert r[a] == t[a];
        if b < j { assert r[b] == t[b]; }
        else if b == j { assert r[b] == x && t[a] in t; }
        else { assert r[b] == t[b - 1]; }
      } else if a == j {
        assert r[a] == x && r[b] == t[b - 1] && t[b - 1] in t;
      } else {
        assert r[a] == t[a - 1] && r[b] == t[b - 1];
      }
    }
  }

  /** Sorting keeps the distinctness of a projection of the elements. */
  lemma {:induction false} SortDescDistinct<T>(s: seq<T>, key: T -> int, proj: T -> string)
    requires forall i, j :: 0 <= i < j < |s| ==> proj(s[i]) != proj(s[j])
    ensures forall i, j :: 0 <= i < j < |SortDesc(s, key)| ==>
      proj(SortDesc(s, key)[i]) != proj(SortDesc(s, key)[j])
  {
    if s != [] {
      var t := SortDesc(s[1..], key);
      SortDescDistinct(s[1..], key, proj);
      SortDescPermutation(s[1..], key);
      var j := InsertSplit(s[0], t, key);
      forall y | y in t ensures proj(y) != proj(s[0]) {
        assert y in multiset(s[1..]);
        var i :| 0 <= i < |s[1..]| && s[1..][i] == y;
        assert s[i + 1] == y;
      }
      InsertDistinct(s[0], t, j, proj);
    }
  }
}
