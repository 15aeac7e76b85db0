/**
 * `parse_hpo_obo` of data/human-phenotype-ontology/build_hp_data.py, over a
 * sequence of already-read lines.
 *
 * A `[Term]` line closes the pending record (kept only if it has an id) and
 * opens an empty one; `id:` and `name:` lines overwrite a field; `synonym:`
 * lines with a quote append their quoted text; every other line, other stanza
 * headers included, changes nothing. After the last line the pending record
 * is kept if it has an id.
 */
module OboParser {
  import opened Wrappers
  import opened OboLines

  /**
   * The `current` dict. A missing key is `None`; the "synonyms" key exists
   * exactly when a synonym was appended, so it is a possibly empty sequence.
   */
  datatype Record = Record(id: Option<string>, name: Option<string>, synonyms: seq<string>)

  const EmptyRecord := Record(None, None, [])

  /** A record that made it into the output: it has an "id" key. */
  datatype Term = Term(id: string, name: Option<string>, synonyms: seq<string>)

  function ToTerm(r: Record): (t: Term)
    requires r.id.Some?
    ensures t.id == r.id.value && t.name == r.name && t.synonyms == r.synonyms
  {
    Term(r.id.value, r.name, r.synonyms)
  }

  // ---------------------------------------------------------------------------
  // The parser as a left fold over the classified lines
  // ---------------------------------------------------------------------------

  datatype ParseState = ParseState(terms: seq<Term>, current: Record)

  /** The record after one line that is not a `[Term]` header. */
  function RecordStep(r: Record, k: LineKind): Record {
    match k
    case IdLine(v) => r.(id := Some(v))
    case NameLine(v) => r.(name := Some(v))
    case SynonymLine(Some(s)) => r.(synonyms := r.synonyms + [s])
    case _ => r
  }

  /** `terms` with the pending record appended when it has an id. */
  function Flush(terms: seq<Term>, r: Record): seq<Term> {
    if r.id.Some? then terms + [ToTerm(r)] else terms
  }

  function Step(st: ParseState, k: LineKind): ParseState {
    if k == TermHeader then ParseState(Flush(st.terms, st.current), EmptyRecord)
    else st.(current := RecordStep(st.current, k))
  }

  /** The state of the loop after lines of these kinds. */
  function Scan(ks: seq<LineKind>): ParseState {
    if ks == [] then ParseState([], EmptyRecord)
    else Step(Scan(ks[..|ks| - 1]), ks[|ks| - 1])
  }

  /** What `parse_hpo_obo` returns for a file with these lines. */
  function Parse(lines: seq<string>): seq<Term> {
    var st := Scan(Kinds(lines));
    Flush(st.terms, st.current)
  }

  /** `parse_hpo_obo`, statement by statement. */
  method ParseHpoObo(lines: seq<string>) returns (terms: seq<Term>)
    ensures terms == Parse(lines)
  {
    terms := [];
    var current := EmptyRecord;
    for i := 0 to |lines|
      invariant ParseState(terms, current) == Scan(Kinds(lines[..i]))
    {
      KindsSnoc(lines, i);
      ghost var kind := Classify(lines[i]);
      var line := Strip(lines[i]);
      if line == "[Term]" {
        assert kind == TermHeader;
        if current.id.Some? {
          terms := terms + [ToTerm(current)];
        }
        current := EmptyRecord;
      } else if StartsWith(line, "id:") {
        assert kind == IdLine(Strip(RemoveAll(line, "id:")));
        current := current.(id := Some(Strip(RemoveAll(line, "id:"))));
      } else if StartsWith(line, "name:") {
        assert kind == NameLine(Strip(RemoveAll(line, "name:")));
        current := current.(name := Some(Strip(RemoveAll(line, "name:"))));
      } else if StartsWith(line, "synonym:") {
        var synonym := QuotedText(line);
        assert kind == SynonymLine(synonym);
        if synonym.Some? {
          current := current.(synonyms := current.synonyms + [synonym.value]);
        }
      } else {
        assert kind == OtherLine;
      }
    }
    assert lines[..|lines|] == lines;
    if current.id.Some? {
      terms := terms + [ToTerm(current)];
    }
  }

  /** One more line read: its kind is appended and the loop takes one more step. */
  lemma KindsSnoc(lines: seq<string>, i: nat)
    requires i < |lines|
    ensures Scan(Kinds(lines[..i + 1])) == Step(Scan(Kinds(lines[..i])), Classify(lines[i]))
  {
    assert Kinds(lines[..i + 1]) == Kinds(lines[..i]) + [Classify(lines[i])];
    ScanSnoc(Kinds(lines[..i]), Classify(lines[i]));
  }

  lemma {:induction false} ScanSnoc(ks: seq<LineKind>, k: LineKind)
    ensures Scan(ks + [k]) == Step(Scan(ks), k)
  {
    assert (ks + [k])[..|ks|] == ks;
  }

  // ---------------------------------------------------------------------------
  // An independent description: records are the blocks between `[Term]` lines
  // ---------------------------------------------------------------------------

  /**
   * The lines cut at every `[Term]` header: the lines before the first header,
   * then, for each header, the lines after it up to the next header.
   */
  function Blocks(ks: seq<LineKind>): (b: seq<seq<LineKind>>)
    ensures |b| >= 1
  {
    if ks == [] then [[]]
    else
      var b := Blocks(ks[..|ks| - 1]);
      var k := ks[|ks| - 1];
      if k == TermHeader then b + [[]]
      else b[..|b| - 1] + [b[|b| - 1] + [k]]
  }

  /** The record a block of header-free lines builds, starting from an empty dict. */
  function RecordOf(block: seq<LineKind>): Record {
    if block == [] then EmptyRecord
    else RecordStep(RecordOf(block[..|block| - 1]), block[|block| - 1])
  }

  /** The terms kept from a sequence of blocks: those whose record has an id. */
  function Kept(blocks: seq<seq<LineKind>>): seq<Term> {
    if blocks == [] then []
    else Flush(Kept(blocks[..|blocks| - 1]), RecordOf(blocks[|blocks| - 1]))
  }

  function CountHeaders(ks: seq<LineKind>): nat {
    if ks == [] then 0
    else CountHeaders(ks[..|ks| - 1]) + (if ks[|ks| - 1] == TermHeader then 1 else 0)
  }

  function Concat(blocks: seq<seq<LineKind>>): seq<LineKind> {
    if blocks == [] then [] else Concat(blocks[..|blocks| - 1]) + blocks[|blocks| - 1]
  }

  function NonHeaders(ks: seq<LineKind>): seq<LineKind> {
    if ks == [] then []
    else NonHeaders(ks[..|ks| - 1]) + (if ks[|ks| - 1] == TermHeader then [] else [ks[|ks| - 1]])
  }

  lemma {:induction false} ConcatSplitLast(blocks: seq<seq<LineKind>>, extra: seq<LineKind>)
    requires |blocks| >= 1
    ensures Concat(blocks[..|blocks| - 1] + [blocks[|blocks| - 1] + extra]) == Concat(blocks) + extra
  {
    var init := blocks[..|blocks| - 1];
    var nb := init + [blocks[|blocks| - 1] + extra];
    assert nb[..|nb| - 1] == init;
    assert blocks[..|blocks| - 1] == init;
  }

  /**
   * The blocks are exactly the non-header lines, in order, split into one
   * more block than there are `[Term]` headers.
   */
  lemma {:induction false} BlocksPartitionLines(ks: seq<LineKind>)
    ensures |Blocks(ks)| == 1 + CountHeaders(ks)
    ensures Concat(Blocks(ks)) == NonHeaders(ks)
  {
    if ks == [] {
      assert Concat([[]]) == Concat([]) + [];
    } else {
      var init := ks[..|ks| - 1];
      var k := ks[|ks| - 1];
      BlocksPartitionLines(init);
      var b := Blocks(init);
      if k == TermHeader {
        assert Blocks(ks) == b + [[]];
        assert (b + [[]])[..|b|] == b;
        assert Concat(b + [[]]) == Concat(b) + [];
      } else {
        assert Blocks(ks) == b[..|b| - 1] + [b[|b| - 1] + [k]];
        ConcatSplitLast(b, [k]);
      }
    }
  }

  /** No block holds a `[Term]` header. */
  lemma {:induction false} BlocksHeaderFree(ks: seq<LineKind>)
    ensures forall b, k :: b in Blocks(ks) && k in b ==> k != TermHeader
  {
    if ks != [] {
      var init := ks[..|ks| - 1];
      var k := ks[|ks| - 1];
      BlocksHeaderFree(init);
      var b := Blocks(init);
      if k != TermHeader {
        assert Blocks(ks) == b[..|b| - 1] + [b[|b| - 1] + [k]];
        forall c, x | c in Blocks(ks) && x in c ensures x != TermHeader {
          if c !in b[..|b| - 1] {
            assert c == b[|b| - 1] + [k];
            assert b[|b| - 1] in b;
          } else {
            assert c in b;
          }
        }
      } else {
        assert Blocks(ks) == b + [[]];
      }
    }
  }

  /** The parser's loop state: the kept terms of all closed blocks, and the record of the open one. */
  lemma {:induction false} ScanIsBlocks(ks: seq<LineKind>)
    ensures var b := Blocks(ks);
      Scan(ks) == ParseState(Kept(b[..|b| - 1]), RecordOf(b[|b| - 1]))
  {
    if ks != [] {
      var init := ks[..|ks| - 1];
      var k := ks[|ks| - 1];
      ScanIsBlocks(init);
      var b := Blocks(init);
      if k == TermHeader {
        var nb := b + [[]];
        assert nb[..|nb| - 1] == b;
        assert b[..|b|] == b;
      } else {
        var last := b[|b| - 1] + [k];
        var nb := b[..|b| - 1] + [last];
        assert nb[..|nb| - 1] == b[..|b| - 1];
        assert last[..|last| - 1] == b[|b| - 1];
      }
    }
  }

  /** `parse_hpo_obo` keeps, in file order, the record of every block that has an id. */
  lemma ParseIsKeptBlocks(lines: seq<string>)
    ensures Parse(lines) == Kept(Blocks(Kinds(lines)))
  {
    ScanIsBlocks(Kinds(lines));
    var b := Blocks(Kinds(lines));
    assert b[..|b|] == b;
  }

  // ---------------------------------------------------------------------------
  // What one block's record holds, field by field
  // ---------------------------------------------------------------------------

  function LastOf(s: seq<string>): Option<string> {
    if s == [] then None else Some(s[|s| - 1])
  }

  /** The values of the `id:` lines of a block, in order. */
  function IdValues(block: seq<LineKind>): seq<string> {
    if block == [] then []
    else IdValues(block[..|block| - 1]) + (match block[|block| - 1] case IdLine(v) => [v] case _ => [])
  }

  /** The values of the `name:` lines of a block, in order. */
  function NameValues(block: seq<LineKind>): seq<string> {
    if block == [] then []
    else NameValues(block[..|block| - 1]) + (match block[|block| - 1] case NameLine(v) => [v] case _ => [])
  }

  /** The quoted texts of the `synonym:` lines of a block that have a quote, in order. */
  function SynonymTexts(block: seq<LineKind>): seq<string> {
    if block == [] then []
    else
      SynonymTexts(block[..|block| - 1])
      + (match block[|block| - 1] case SynonymLine(Some(t)) => [t] case _ => [])
  }

  /**
   * A record's id and name are those of the LAST `id:` and `name:` lines of its
   * block (a later line overwrites an earlier one), and its synonyms are the
   * quoted texts of its synonym lines in file order.
   */
  lemma {:induction false} RecordFields(block: seq<LineKind>)
    ensures RecordOf(block) == Record(LastOf(IdValues(block)), LastOf(NameValues(block)), SynonymTexts(block))
  {
    if block != [] {
      RecordFields(block[..|block| - 1]);
    }
  }

  /** A record is kept exactly when its block has at least one `id:` line. */
  lemma KeptIffIdLine(block: seq<LineKind>)
    ensures RecordOf(block).id.Some? <==> IdValues(block) != []
  {
    RecordFields(block);
  }
}
