/**
 * Stanzas other than `[Term]` in data/human-phenotype-ontology/build_hp_data.py.
 *
 * As written, only `[Term]` closes a record, so a `[Typedef]` stanza that
 * follows a term is read into that term: its `id:` and `name:` lines
 * overwrite the term's. The corrected reader below closes the record at every
 * stanza header and keeps only records opened by `[Term]`.
 */
module OboStanzas {
  import opened Wrappers
  import opened OboLines
  import opened OboParser

  // ---------------------------------------------------------------------------
  // As written
  // ---------------------------------------------------------------------------

  /**
   * Lines without a `[Term]` header, appended to a file, all land in its last
   * block: a stanza of another kind after a term is read as part of that term.
   */
  lemma {:induction false} BlocksExtendOpen(ks: seq<LineKind>, more: seq<LineKind>)
    requires TermHeader !in more
    ensures var b := Blocks(ks);
      Blocks(ks + more) == b[..|b| - 1] + [b[|b| - 1] + more]
    decreases |more|
  {
    var b := Blocks(ks);
    if more == [] {
      assert ks + more == ks;
      assert b[|b| - 1] + more == b[|b| - 1];
      assert b[..|b| - 1] + [b[|b| - 1]] == b;
    } else {
      var init := more[..|more| - 1];
      var k := more[|more| - 1];
      assert more == init + [k];
      assert k in more;
      BlocksExtendOpen(ks, init);
      assert (ks + more)[..|ks + more| - 1] == ks + init;
      assert (ks + more)[|ks + more| - 1] == k;
      var nb := b[..|b| - 1] + [b[|b| - 1] + init];
      assert nb[..|nb| - 1] == b[..|b| - 1];
      assert nb[|nb| - 1] + [k] == b[|b| - 1] + more;
    }
  }

  /** Lines whose kinds are known one by one have those kinds as a file. */
  lemma KindsAgree(lines: seq<string>, ks: seq<LineKind>)
    requires |lines| == |ks| && forall i :: 0 <= i < |lines| ==> Classify(lines[i]) == ks[i]
    ensures Kinds(lines) == ks
  {
  }

  /** The fold over the kinds of a term followed by another stanza with an `id:` line. */
  lemma {:induction false} ScanOverwritten(a: string, x: string)
    ensures Scan([TermHeader, IdLine(a), OtherLine, IdLine(x)]) == ParseState([], Record(Some(x), None, []))
  {
    var ks := [TermHeader, IdLine(a), OtherLine, IdLine(x)];
    ScanSnoc([], ks[0]);
    assert [] + [ks[0]] == ks[..1];
    ScanSnoc(ks[..1], ks[1]);
    assert ks[..1] + [ks[1]] == ks[..2];
    ScanSnoc(ks[..2], ks[2]);
    assert ks[..2] + [ks[2]] == ks[..3];
    ScanSnoc(ks[..3], ks[3]);
    assert ks[..3] + [ks[3]] == ks;
  }

  /**
   * As written: a term with id `a` followed by a stanza of another kind whose
   * `id:` line has value `x` comes out as one term with id `x`, for instance
   * the file `[Term]`, `id: HP:0000001`, `[Typedef]`, `id: part_of` (see
   * SampleFile).
   */
  lemma TypedefOverwritesTerm(lines: seq<string>, a: string, x: string)
    requires |lines| == 4
    requires Classify(lines[0]) == TermHeader && Classify(lines[1]) == IdLine(a)
    requires Classify(lines[2]) == OtherLine && Classify(lines[3]) == IdLine(x)
    ensures Parse(lines) == [Term(x, None, [])]
  {
    var ks := [TermHeader, IdLine(a), OtherLine, IdLine(x)];
    forall i | 0 <= i < 4 ensures Classify(lines[i]) == ks[i] {
      if i == 0 {} else if i == 1 {} else if i == 2 {} else {}
    }
    KindsAgree(lines, ks);
    ScanOverwritten(a, x);
  }

  // ---------------------------------------------------------------------------
  // Corrected: every stanza header closes the record, only [Term] opens one
  // ---------------------------------------------------------------------------

  /** The stanza headers of OBO: a stripped line of the form `[...]`. */
  predicate IsStanzaHeader(raw: string) {
    var line := Strip(raw);
    |line| >= 2 && line[0] == '[' && line[|line| - 1] == ']'
  }

  lemma TermHeaderIsStanzaHeader(raw: string)
    requires Classify(raw) == TermHeader
    ensures IsStanzaHeader(raw)
  {
    assert Strip(raw) == "[Term]";
  }

  /** A line's kind, and whether it is a stanza header of any kind. */
  datatype Tagged = Tagged(kind: LineKind, header: bool)

  function Tag(lines: seq<string>): (ts: seq<Tagged>)
    ensures |ts| == |lines|
    ensures forall i :: 0 <= i < |lines| ==> ts[i] == Tagged(Classify(lines[i]), IsStanzaHeader(lines[i]))
  {
    seq(|lines|, i requires 0 <= i < |lines| => Tagged(Classify(lines[i]), IsStanzaHeader(lines[i])))
  }

  lemma TagAppend(a: seq<string>, b: seq<string>)
    ensures Tag(a + b) == Tag(a) + Tag(b)
  {
    var l, r := Tag(a + b), Tag(a) + Tag(b);
    forall i | 0 <= i < |a + b| ensures l[i] == r[i] {
      if i < |a| { assert (a + b)[i] == a[i]; } else { assert (a + b)[i] == b[i - |a|]; }
    }
  }

  datatype StanzaState = StanzaState(terms: seq<Term>, current: Record, inTerm: bool)

  function StanzaStep(st: StanzaState, t: Tagged): StanzaState {
    if t.header then
      StanzaState(if st.inTerm then Flush(st.terms, st.current) else st.terms, EmptyRecord, t.kind == TermHeader)
    else if st.inTerm then st.(current := RecordStep(st.current, t.kind))
    else st
  }

  function ScanStanzas(ts: seq<Tagged>): StanzaState {
    if ts == [] then StanzaState([], EmptyRecord, false)
    else StanzaStep(ScanStanzas(ts[..|ts| - 1]), ts[|ts| - 1])
  }

  /** The records kept once the input ends: the open one too if it is a term. */
  function Finish(st: StanzaState): seq<Term> {
    if st.inTerm then Flush(st.terms, st.current) else st.terms
  }

  /** Only the records of `[Term]` stanzas, each ended by the next stanza header of any kind. */
  function ParseTermStanzas(lines: seq<string>): seq<Term> {
    Finish(ScanStanzas(Tag(lines)))
  }

  lemma ScanStanzasSnoc(ts: seq<Tagged>, t: Tagged)
    ensures ScanStanzas(ts + [t]) == StanzaStep(ScanStanzas(ts), t)
  {
    assert (ts + [t])[..|ts|] == ts;
  }

  /** Lines that are no stanza header leave a state outside a `[Term]` stanza alone. */
  lemma {:induction false} OutsideTermUnchanged(ts: seq<Tagged>, body: seq<Tagged>)
    requires !ScanStanzas(ts).inTerm
    requires forall i :: 0 <= i < |body| ==> !body[i].header
    ensures ScanStanzas(ts + body) == ScanStanzas(ts)
    decreases |body|
  {
    if body == [] {
      assert ts + body == ts;
    } else {
      var init := body[..|body| - 1];
      OutsideTermUnchanged(ts, init);
      assert ts + body == (ts + init) + [body[|body| - 1]];
      ScanStanzasSnoc(ts + init, body[|body| - 1]);
    }
  }

  /** `OtherStanzaIgnored` on tagged lines. */
  lemma OtherStanzaIgnoredTagged(ts: seq<Tagged>, k: LineKind, body: seq<Tagged>)
    requires k != TermHeader
    requires forall i :: 0 <= i < |body| ==> !body[i].header
    ensures Finish(ScanStanzas(ts + [Tagged(k, true)] + body)) == Finish(ScanStanzas(ts))
  {
    ScanStanzasSnoc(ts, Tagged(k, true));
    OutsideTermUnchanged(ts + [Tagged(k, true)], body);
  }

  /**
   * Corrected: a stanza of any other kind (a header that is not `[Term]` and
   * the lines up to the next header) adds nothing and changes nothing.
   */
  lemma OtherStanzaIgnored(lines: seq<string>, header: string, body: seq<string>)
    requires IsStanzaHeader(header) && Classify(header) != TermHeader
    requires forall i :: 0 <= i < |body| ==> !IsStanzaHeader(body[i])
    ensures ParseTermStanzas(lines + [header] + body) == ParseTermStanzas(lines)
  {
    var k := Classify(header);
    TagAppend(lines, [header]);
    TagAppend(lines + [header], body);
    assert Tag([header]) == [Tagged(k, true)];
    OtherStanzaIgnoredTagged(Tag(lines), k, Tag(body));
  }

  function KindsOf(ts: seq<Tagged>): (ks: seq<LineKind>)
    ensures |ks| == |ts| && forall i :: 0 <= i < |ts| ==> ks[i] == ts[i].kind
  {
    seq(|ts|, i requires 0 <= i < |ts| => ts[i].kind)
  }

  /** On tagged lines whose headers are all `[Term]`, both readers keep the same state. */
  lemma {:induction false} TaggedAgree(ts: seq<Tagged>)
    requires |ts| >= 1 && ts[0].kind == TermHeader
    requires forall i :: 0 <= i < |ts| ==> (ts[i].header <==> ts[i].kind == TermHeader)
    ensures var st := Scan(KindsOf(ts));
      ScanStanzas(ts) == StanzaState(st.terms, st.current, true)
    decreases |ts|
  {
    var init := ts[..|ts| - 1];
    assert KindsOf(ts) == KindsOf(init) + [ts[|ts| - 1].kind];
    ScanSnoc(KindsOf(init), ts[|ts| - 1].kind);
    if |ts| == 1 {
      assert KindsOf(init) == [];
    } else {
      TaggedAgree(init);
    }
  }

  /**
   * The correction changes nothing for a file that starts with `[Term]` and
   * has no other kind of stanza header.
   */
  lemma TermStanzasAgree(lines: seq<string>)
    requires |lines| >= 1 && Classify(lines[0]) == TermHeader
    requires forall l :: l in lines && IsStanzaHeader(l) ==> Classify(l) == TermHeader
    ensures ParseTermStanzas(lines) == Parse(lines)
  {
    var ts := Tag(lines);
    forall i | 0 <= i < |ts| ensures ts[i].header <==> ts[i].kind == TermHeader {
      assert lines[i] in lines;
      if ts[i].kind == TermHeader { TermHeaderIsStanzaHeader(lines[i]); }
    }
    TaggedAgree(ts);
    assert KindsOf(ts) == Kinds(lines);
  }

  /** The fold only depends on the state reached: equal states stay equal on the same further lines. */
  lemma {:induction false} ScanCongruent(a1: seq<LineKind>, a2: seq<LineKind>, b: seq<LineKind>)
    requires Scan(a1) == Scan(a2)
    ensures Scan(a1 + b) == Scan(a2 + b)
    decreases |b|
  {
    if b == [] {
      assert a1 + b == a1 && a2 + b == a2;
    } else {
      var init, k := b[..|b| - 1], b[|b| - 1];
      ScanCongruent(a1, a2, init);
      assert a1 + b == (a1 + init) + [k];
      assert a2 + b == (a2 + init) + [k];
      ScanSnoc(a1 + init, k);
      ScanSnoc(a2 + init, k);
    }
  }

  /** The corrected fold, likewise. */
  lemma {:induction false} ScanStanzasCongruent(a1: seq<Tagged>, a2: seq<Tagged>, b: seq<Tagged>)
    requires ScanStanzas(a1) == ScanStanzas(a2)
    ensures ScanStanzas(a1 + b) == ScanStanzas(a2 + b)
    decreases |b|
  {
    if b == [] {
      assert a1 + b == a1 && a2 + b == a2;
    } else {
      var init, t := b[..|b| - 1], b[|b| - 1];
      ScanStanzasCongruent(a1, a2, init);
      assert a1 + b == (a1 + init) + [t];
      assert a2 + b == (a2 + init) + [t];
      ScanStanzasSnoc(a1 + init, t);
      ScanStanzasSnoc(a2 + init, t);
    }
  }

  /** Before the first `[Term]`, and without an `id:` line, the loop keeps nothing and has no id. */
  lemma {:induction false} ScanPreamble(pre: seq<LineKind>)
    requires forall i :: 0 <= i < |pre| ==> pre[i] != TermHeader && !pre[i].IdLine?
    ensures Scan(pre).terms == [] && Scan(pre).current.id.None?
  {
    if pre != [] {
      ScanPreamble(pre[..|pre| - 1]);
    }
  }

  /** The `[Term]` that ends the preamble leaves the state of an empty file after a `[Term]`. */
  lemma {:induction false} PreambleThenTerm(kp: seq<LineKind>)
    requires forall i :: 0 <= i < |kp| ==> kp[i] != TermHeader && !kp[i].IdLine?
    ensures Scan(kp + [TermHeader]) == ParseState([], EmptyRecord)
  {
    ScanPreamble(kp);
    ScanSnoc(kp, TermHeader);
  }

  /** Lines that reach the state after a lone `[Term]` and then go on as `kl` end as `kl` alone. */
  lemma {:induction false} ScanFromTerm(kp: seq<LineKind>, kl: seq<LineKind>)
    requires Scan(kp + [TermHeader]) == ParseState([], EmptyRecord)
    requires kl != [] && kl[0] == TermHeader
    ensures Scan(kp + kl) == Scan(kl)
  {
    var h, rest := [TermHeader], kl[1..];
    ScanSnoc([], TermHeader);
    assert [] + h == h;
    ScanCongruent(kp + h, h, rest);
    assert kp + kl == (kp + h) + rest;
    assert kl == h + rest;
  }

  lemma ScanAfterPreamble(kp: seq<LineKind>, kl: seq<LineKind>)
    requires forall i :: 0 <= i < |kp| ==> kp[i] != TermHeader && !kp[i].IdLine?
    requires kl != [] && kl[0] == TermHeader
    ensures Scan(kp + kl) == Scan(kl)
  {
    PreambleThenTerm(kp);
    ScanFromTerm(kp, kl);
  }

  lemma {:induction false} KindsOfAppend(a: seq<Tagged>, b: seq<Tagged>)
    ensures KindsOf(a + b) == KindsOf(a) + KindsOf(b)
  {
    var l, r := KindsOf(a + b), KindsOf(a) + KindsOf(b);
    forall i | 0 <= i < |a + b| ensures l[i] == r[i] {
      if i < |a| { assert (a + b)[i] == a[i]; } else { assert (a + b)[i] == b[i - |a|]; }
    }
  }

  lemma KindsOfTag(lines: seq<string>)
    ensures KindsOf(Tag(lines)) == Kinds(lines)
  {
  }

  /** As written, lines before the first `[Term]` without an `id:` line are dropped. */
  lemma PreambleDropped(pre: seq<string>, lines: seq<string>)
    requires forall i :: 0 <= i < |pre| ==> Classify(pre[i]) != TermHeader && !Classify(pre[i]).IdLine?
    requires |lines| >= 1 && Classify(lines[0]) == TermHeader
    ensures Parse(pre + lines) == Parse(lines)
  {
    TagAppend(pre, lines);
    KindsOfAppend(Tag(pre), Tag(lines));
    KindsOfTag(pre + lines);
    KindsOfTag(pre);
    KindsOfTag(lines);
    ScanAfterPreamble(Kinds(pre), Kinds(lines));
  }

  /** Corrected, lines before the first stanza header are dropped. */
  lemma PreambleSkipped(pre: seq<string>, lines: seq<string>)
    requires forall i :: 0 <= i < |pre| ==> !IsStanzaHeader(pre[i])
    ensures ParseTermStanzas(pre + lines) == ParseTermStanzas(lines)
  {
    TagAppend(pre, lines);
    var tp := Tag(pre);
    OutsideTermUnchanged([], tp);
    assert [] + tp == tp;
    ScanStanzasCongruent(tp, [], Tag(lines));
    assert [] + Tag(lines) == Tag(lines);
  }

  /**
   * The correction changes nothing either for a real OBO file: a header block
   * (`format-version:`, `ontology:` and the like: no stanza header and no
   * `id:` line) and then `[Term]` stanzas only. Both readers ignore the
   * header block.
   */
  lemma TermStanzasAgreeAfterPreamble(pre: seq<string>, lines: seq<string>)
    requires forall i :: 0 <= i < |pre| ==> !IsStanzaHeader(pre[i]) && !Classify(pre[i]).IdLine?
    requires |lines| >= 1 && Classify(lines[0]) == TermHeader
    requires forall l :: l in lines && IsStanzaHeader(l) ==> Classify(l) == TermHeader
    ensures ParseTermStanzas(pre + lines) == Parse(pre + lines) == Parse(lines)
  {
    forall i | 0 <= i < |pre| ensures Classify(pre[i]) != TermHeader {
      if Classify(pre[i]) == TermHeader { TermHeaderIsStanzaHeader(pre[i]); }
    }
    PreambleDropped(pre, lines);
    PreambleSkipped(pre, lines);
    TermStanzasAgree(lines);
  }

  /** Lines whose tags are known one by one have those tags as a file. */
  lemma TagsAgree(lines: seq<string>, ts: seq<Tagged>)
    requires |lines| == |ts|
    requires forall i :: 0 <= i < |lines| ==> Tagged(Classify(lines[i]), IsStanzaHeader(lines[i])) == ts[i]
    ensures Tag(lines) == ts
  {
  }

  /** The corrected fold over the tags of a term followed by another stanza with an `id:` line. */
  lemma ScanStanzasSkipped(a: string, x: string)
    ensures Finish(ScanStanzas([Tagged(TermHeader, true), Tagged(IdLine(a), false), Tagged(OtherLine, true), Tagged(IdLine(x), false)]))
      == [Term(a, None, [])]
  {
    var t0, t1 := Tagged(TermHeader, true), Tagged(IdLine(a), false);
    ScanStanzasSnoc([], t0);
    assert [] + [t0] == [t0];
    ScanStanzasSnoc([t0], t1);
    assert [t0] + [t1] == [t0, t1];
    OtherStanzaIgnoredTagged([t0, t1], OtherLine, [Tagged(IdLine(x), false)]);
    assert [t0, t1] + [Tagged(OtherLine, true)] + [Tagged(IdLine(x), false)]
      == [t0, t1, Tagged(OtherLine, true), Tagged(IdLine(x), false)];
  }

  /**
   * Corrected: the same file yields the term with id `a` from its `[Term]`
   * stanza; the other stanza is skipped.
   */
  lemma TypedefIgnoredWhenCorrected(lines: seq<string>, a: string, x: string)
    requires |lines| == 4
    requires Classify(lines[0]) == TermHeader
    requires Classify(lines[1]) == IdLine(a) && !IsStanzaHeader(lines[1])
    requires Classify(lines[2]) == OtherLine && IsStanzaHeader(lines[2])
    requires Classify(lines[3]) == IdLine(x) && !IsStanzaHeader(lines[3])
    ensures ParseTermStanzas(lines) == [Term(a, None, [])]
  {
    var ts := [Tagged(TermHeader, true), Tagged(IdLine(a), false), Tagged(OtherLine, true), Tagged(IdLine(x), false)];
    TermHeaderIsStanzaHeader(lines[0]);
    forall i | 0 <= i < 4 ensures Tagged(Classify(lines[i]), IsStanzaHeader(lines[i])) == ts[i] {
      if i == 0 {} else if i == 1 {} else if i == 2 {} else {}
    }
    TagsAgree(lines, ts);
    ScanStanzasSkipped(a, x);
  }

  /**
   * The sample file: one term and one `[Typedef]` stanza, read both ways; the
   * ids are any values such as `HP:0000001` and `part_of`.
   */
  lemma SampleFile(lines: seq<string>, termId: string, typedefId: string)
    requires termId != [] && !IsSpace(termId[0]) && !IsSpace(termId[|termId| - 1]) && 'd' !in termId
    requires typedefId != [] && !IsSpace(typedefId[0]) && !IsSpace(typedefId[|typedefId| - 1]) && 'd' !in typedefId
    requires lines == ["[Term]", "id: " + termId, "[Typedef]", "id: " + typedefId]
    ensures Parse(lines) == [Term(typedefId, None, [])]
    ensures ParseTermStanzas(lines) == [Term(termId, None, [])]
  {
    assert lines[0] == "[Term]" && lines[2] == "[Typedef]";
    assert lines[1] == "id: " + termId && lines[3] == "id: " + typedefId;
    SampleHeaderLine(lines[0]);
    SampleTypedefLine(lines[2]);
    SampleIdLine(termId);
    SampleIdLine(typedefId);
    TypedefOverwritesTerm(lines, termId, typedefId);
    TypedefIgnoredWhenCorrected(lines, termId, typedefId);
  }

  /** A stanza header other than `[Term]`, such as `[Typedef]`, is ignored by the line tests. */
  lemma OtherHeaderLine(raw: string)
    requires var l := Strip(raw); |l| >= 2 && l[0] == '[' && l[|l| - 1] == ']' && l != "[Term]"
    ensures Classify(raw) == OtherLine && IsStanzaHeader(raw)
  {
    var l := Strip(raw);
    assert !StartsWith(l, "id:") by { assert l[0] != "id:"[0]; }
    assert !StartsWith(l, "name:") by { assert l[0] != "name:"[0]; }
    assert !StartsWith(l, "synonym:") by { assert l[0] != "synonym:"[0]; }
    ClassifyOther(raw);
  }

  /** The `[Typedef]` header of the sample file is a stanza header of another kind. */
  lemma SampleTypedefLine(h: string)
    requires h == "[Typedef]"
    ensures Classify(h) == OtherLine && IsStanzaHeader(h)
  {
    StripUnchanged(h);
    assert |h| != |"[Term]"|;
    OtherHeaderLine(h);
  }

  lemma SampleHeaderLine(h: string)
    requires h == "[Term]"
    ensures Classify(h) == TermHeader
  {
    StripUnchanged(h);
  }

  /** `id: v` for a value without surrounding whitespace and without the letter `d`. */
  lemma SampleIdLine(value: string)
    requires value != [] && !IsSpace(value[0]) && !IsSpace(value[|value| - 1]) && 'd' !in value
    ensures Classify("id: " + value) == IdLine(value) && !IsStanzaHeader("id: " + value)
  {
    SampleIdKind(value);
    SampleIdNotHeader(value);
  }

  lemma SampleIdKind(value: string)
    requires value != [] && !IsSpace(value[0]) && !IsSpace(value[|value| - 1]) && 'd' !in value
    ensures Classify("id: " + value) == IdLine(value)
  {
    assert "id:" + (" " + value) == "id: " + value;
    ClassifyPair("id:", " " + value, value, 1);
  }

  lemma SampleIdNotHeader(value: string)
    requires value != [] && !IsSpace(value[|value| - 1])
    ensures !IsStanzaHeader("id: " + value)
  {
    var line := "id: " + value;
    assert line[0] == 'i';
    assert line[|line| - 1] == value[|value| - 1];
    StripUnchanged(line);
  }
}
