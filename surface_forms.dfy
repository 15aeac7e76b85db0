/**
 * `build_hpo_texts` in data/human-phenotype-ontology/build_hp_data.py: the
 * parsed terms flattened into two parallel lists, the surface forms (each
 * term's name, then its synonyms) and, at the same positions, the id of the
 * term each form belongs to.
 */
module SurfaceForms {
  import opened Wrappers
  import opened OboParser

  /** The two parallel lists `hpo_texts` and `hpo_ids`. */
  datatype Flat = Flat(texts: seq<string>, ids: seq<string>)

  /** `[term["name"]] + term.get("synonyms", [])` for a term that has a name. */
  function Forms(t: Term): (fs: seq<string>)
    requires t.name.Some?
    ensures |fs| == 1 + |t.synonyms| && fs[0] == t.name.value && fs[1..] == t.synonyms
  {
    [t.name.value] + t.synonyms
  }

  /** `n` copies of the id `id`. */
  function Repeat(id: string, n: nat): (r: seq<string>)
    ensures |r| == n && forall i :: 0 <= i < n ==> r[i] == id
  {
    seq(n, _ => id)
  }

  /** How many entries the terms contribute: one per name and one per synonym. */
  function Size(terms: seq<Term>): nat {
    if terms == [] then 0 else Size(terms[..|terms| - 1]) + 1 + |terms[|terms| - 1].synonyms|
  }

  /**
   * What the two loops build, term by term. `term["name"]` raises KeyError
   * for the first term without a name; the error is that term's position.
   */
  function Flatten(terms: seq<Term>): Result<Flat, nat> {
    if terms == [] then Ok(Flat([], []))
    else
      var t := terms[|terms| - 1];
      match Flatten(terms[..|terms| - 1])
      case Err(e) => Err(e)
      case Ok(f) =>
        if t.name.None? then Err(|terms| - 1)
        else Ok(Flat(f.texts + Forms(t), f.ids + Repeat(t.id, 1 + |t.synonyms|)))
  }

  /** `build_hpo_texts`, loop by loop. */
  method BuildHpoTexts(terms: seq<Term>) returns (r: Result<Flat, nat>)
    ensures r == Flatten(terms)
  {
    var hpoTexts: seq<string> := [];
    var hpoIds: seq<string> := [];
    for i := 0 to |terms|
      invariant Flatten(terms[..i]) == Ok(Flat(hpoTexts, hpoIds))
    {
      var term := terms[i];
      assert terms[..i + 1][..i] == terms[..i];
      if term.name.None? {
        FlattenErrorSticks(terms, i + 1);
        return Err(i);
      }
      var texts := [term.name.value] + term.synonyms;
      ghost var baseTexts, baseIds := hpoTexts, hpoIds;
      for j := 0 to |texts|
        invariant hpoTexts == baseTexts + texts[..j]
        invariant hpoIds == baseIds + Repeat(term.id, j)
      {
        assert texts[..j + 1] == texts[..j] + [texts[j]];
        hpoTexts := hpoTexts + [texts[j]];
        hpoIds := hpoIds + [term.id];
      }
      assert texts[..|texts|] == texts;
    }
    assert terms[..|terms|] == terms;
    r := Ok(Flat(hpoTexts, hpoIds));
  }

  /** Once a prefix has failed, every longer prefix fails with the same error. */
  lemma {:induction false} FlattenErrorSticks(terms: seq<Term>, i: nat)
    requires i <= |terms| && Flatten(terms[..i]).Err?
    ensures Flatten(terms) == Flatten(terms[..i])
    decreases |terms| - i
  {
    if i == |terms| {
      assert terms[..i] == terms;
    } else {
      assert terms[..|terms| - 1][..i] == terms[..i];
      FlattenErrorSticks(terms[..|terms| - 1], i);
    }
  }

  /** Flattening fails exactly when some term has no name, and names the first one. */
  lemma {:induction false} FlattenFailsIffUnnamed(terms: seq<Term>)
    ensures Flatten(terms).Ok? <==> forall i :: 0 <= i < |terms| ==> terms[i].name.Some?
    ensures Flatten(terms).Err? ==>
      var e := Flatten(terms).error;
      e < |terms| && terms[e].name.None? && forall i :: 0 <= i < e ==> terms[i].name.Some?
  {
    if terms != [] {
      var init := terms[..|terms| - 1];
      FlattenFailsIffUnnamed(init);
      assert forall i :: 0 <= i < |init| ==> init[i] == terms[i];
    }
  }

  /** Both lists have one entry per name and per synonym. */
  lemma {:induction false} FlattenLengths(terms: seq<Term>)
    requires Flatten(terms).Ok?
    ensures |Flatten(terms).value.texts| == |Flatten(terms).value.ids| == Size(terms)
  {
    if terms != [] {
      FlattenLengths(terms[..|terms| - 1]);
    }
  }

  /** Where the entries of term `i` start: the entries of the terms before it. */
  function Offset(terms: seq<Term>, i: nat): nat
    requires i <= |terms|
  {
    Size(terms[..i])
  }

  lemma OffsetNext(terms: seq<Term>, i: nat)
    requires i < |terms|
    ensures Offset(terms, i + 1) == Offset(terms, i) + 1 + |terms[i].synonyms|
  {
    assert terms[..i + 1][..i] == terms[..i];
  }

  /** The lists of all the terms extend those of all but the last by the last term's entries. */
  lemma FlattenSnoc(terms: seq<Term>)
    requires Flatten(terms).Ok? && terms != []
    ensures var init, t := terms[..|terms| - 1], terms[|terms| - 1];
      Flatten(init).Ok? && t.name.Some? &&
      Flatten(terms).value.texts == Flatten(init).value.texts + Forms(t) &&
      Flatten(terms).value.ids == Flatten(init).value.ids + Repeat(t.id, 1 + |t.synonyms|)
  {
  }

  lemma SlicePrefix(x: seq<string>, y: seq<string>, lo: nat, hi: nat)
    requires lo <= hi <= |x|
    ensures (x + y)[lo..hi] == x[lo..hi]
  {
  }

  lemma SliceSuffix(x: seq<string>, y: seq<string>)
    ensures (x + y)[|x|..|x| + |y|] == y
  {
  }

  /**
   * Term by term, in order: the entries of term `i` are its name and then its
   * synonyms, each paired with its id.
   */
  lemma {:induction false} FlattenAligned(terms: seq<Term>, i: nat)
    requires Flatten(terms).Ok? && i < |terms|
    ensures terms[i].name.Some?
    ensures var f := Flatten(terms).value;
      Offset(terms, i + 1) == Offset(terms, i) + 1 + |terms[i].synonyms| &&
      Offset(terms, i + 1) <= |f.texts| && Offset(terms, i + 1) <= |f.ids| &&
      f.texts[Offset(terms, i)..Offset(terms, i + 1)] == Forms(terms[i]) &&
      f.ids[Offset(terms, i)..Offset(terms, i + 1)] == Repeat(terms[i].id, 1 + |terms[i].synonyms|)
    decreases |terms|
  {
    var init := terms[..|terms| - 1];
    var t := terms[|terms| - 1];
    FlattenSnoc(terms);
    var g := Flatten(init).value;
    var forms, ids := Forms(t), Repeat(t.id, 1 + |t.synonyms|);
    FlattenLengths(init);
    OffsetNext(terms, i);
    if i == |terms| - 1 {
      assert terms[..i] == init;
      SliceSuffix(g.texts, forms);
      SliceSuffix(g.ids, ids);
    } else {
      FlattenAligned(init, i);
      assert init[i] == terms[i];
      assert init[..i] == terms[..i];
      assert init[..i + 1] == terms[..i + 1];
      SlicePrefix(g.texts, forms, Offset(terms, i), Offset(terms, i + 1));
      SlicePrefix(g.ids, ids, Offset(terms, i), Offset(terms, i + 1));
    }
  }

  /**
   * No deduplication: two named terms, even with the same name, each keep
   * their own entry, at different positions and with their own ids.
   */
  lemma NamesNotDeduplicated(terms: seq<Term>, i: nat, j: nat)
    requires Flatten(terms).Ok? && i < j < |terms|
    ensures var f := Flatten(terms).value;
      Offset(terms, i) < Offset(terms, j) < |f.texts| == |f.ids| &&
      terms[i].name.Some? && terms[j].name.Some? &&
      f.texts[Offset(terms, i)] == terms[i].name.value && f.ids[Offset(terms, i)] == terms[i].id &&
      f.texts[Offset(terms, j)] == terms[j].name.value && f.ids[Offset(terms, j)] == terms[j].id
  {
    var f := Flatten(terms).value;
    FlattenAligned(terms, i);
    FlattenAligned(terms, j);
    OffsetMonotone(terms, i + 1, j);
    OffsetNext(terms, i);
    OffsetNext(terms, j);
    FlattenLengths(terms);
    assert f.texts[Offset(terms, i)] == f.texts[Offset(terms, i)..Offset(terms, i + 1)][0];
    assert f.ids[Offset(terms, i)] == f.ids[Offset(terms, i)..Offset(terms, i + 1)][0];
    assert f.texts[Offset(terms, j)] == f.texts[Offset(terms, j)..Offset(terms, j + 1)][0];
    assert f.ids[Offset(terms, j)] == f.ids[Offset(terms, j)..Offset(terms, j + 1)][0];
  }

  lemma {:induction false} OffsetMonotone(terms: seq<Term>, i: nat, j: nat)
    requires i <= j <= |terms|
    ensures Offset(terms, i) <= Offset(terms, j)
    decreases j - i
  {
    if i < j {
      OffsetMonotone(terms, i, j - 1);
      OffsetNext(terms, j - 1);
    }
  }
}
