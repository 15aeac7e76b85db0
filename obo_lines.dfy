/**
 * How `parse_hpo_obo` (data/human-phenotype-ontology/build_hp_data.py) reads
 * ONE line of an OBO file: the line is stripped, then tested, in this order,
 * for `[Term]`, `id:`, `name:` and `synonym:`; anything else is ignored.
 */
module OboLines {
  import opened Wrappers

  // ---------------------------------------------------------------------------
  // Python string primitives used by the parser
  // ---------------------------------------------------------------------------

  /** The characters for which Python's `str.isspace` holds: what `strip()` removes. */
  predicate IsSpace(c: char) {
    c == ' ' || ('\t' <= c <= '\r') || ('\U{1c}' <= c <= '\U{1f}') || c == '\U{85}' || c == '\U{a0}'
    || c == '\U{1680}' || ('\U{2000}' <= c <= '\U{200a}') || c == '\U{2028}' || c == '\U{2029}'
    || c == '\U{202f}' || c == '\U{205f}' || c == '\U{3000}'
  }

  /** `s.lstrip()`: the longest suffix of `s` that does not start with whitespace. */
  function StripLeft(s: string): (r: string)
    ensures |r| <= |s| && r == s[|s| - |r|..]
    ensures forall i :: 0 <= i < |s| - |r| ==> IsSpace(s[i])
    ensures r == [] || !IsSpace(r[0])
  {
    if |s| > 0 && IsSpace(s[0]) then StripLeft(s[1..]) else s
  }

  /** `s.rstrip()`: the longest prefix of `s` that does not end with whitespace. */
  function StripRight(s: string): (r: string)
    ensures |r| <= |s| && r == s[..|r|]
    ensures forall i :: |r| <= i < |s| ==> IsSpace(s[i])
    ensures r == [] || !IsSpace(r[|r| - 1])
  {
    if |s| > 0 && IsSpace(s[|s| - 1]) then StripRight(s[..|s| - 1]) else s
  }

  /** `s.strip()`: `s` without its leading and trailing whitespace. */
  function Strip(s: string): (r: string)
    ensures |r| <= |s|
    ensures r == [] || (!IsSpace(r[0]) && !IsSpace(r[|r| - 1]))
  {
    StripRight(StripLeft(s))
  }

  /**
   * What `strip()` keeps: the slice of `s` that starts after its leading
   * whitespace, with only whitespace on either side of it.
   */
  lemma StripSpec(s: string)
    ensures var r, a := Strip(s), |s| - |StripLeft(s)|;
      a + |r| <= |s| && r == s[a..a + |r|] &&
      (forall i :: 0 <= i < a ==> IsSpace(s[i])) &&
      (forall i :: a + |r| <= i < |s| ==> IsSpace(s[i]))
  {
    var l := StripLeft(s);
    var a := |s| - |l|;
    var r := StripRight(l);
    assert l == s[a..];
    assert r == l[..|r|];
    forall i | a + |r| <= i < |s| ensures IsSpace(s[i]) {
      assert s[i] == l[i - a];
    }
  }

  predicate StartsWith(s: string, prefix: string) {
    |prefix| <= |s| && s[..|prefix|] == prefix
  }

  /** `s.replace(pat, "")`: every non-overlapping occurrence of `pat`, scanned left to right, removed. */
  function RemoveAll(s: string, pat: string): (r: string)
    requires |pat| > 0
    ensures |r| <= |s|
    decreases |s|
  {
    if |s| < |pat| then s
    else if s[..|pat|] == pat then RemoveAll(s[|pat|..], pat)
    else [s[0]] + RemoveAll(s[1..], pat)
  }

  /** Position of the first double quote of `s`, if any. */
  function QuoteIndex(s: string): (r: Option<nat>)
    ensures r.None? <==> '"' !in s
    ensures r.Some? ==> r.value < |s| && s[r.value] == '"' && '"' !in s[..r.value]
  {
    if s == [] then None
    else if s[0] == '"' then Some(0)
    else match QuoteIndex(s[1..])
      case None => None
      case Some(i) => assert s[1..][..i] == s[1..i + 1]; Some(i + 1)
  }

  /**
   * `s.split('"')[1]`: the text after the first double quote, up to the second
   * one or the end of `s`; `None` where Python raises IndexError (no quote at all).
   */
  function QuotedText(s: string): (r: Option<string>)
    ensures r.None? <==> '"' !in s
    ensures r.Some? ==> '"' !in r.value
    ensures r.Some? ==> var q := QuoteIndex(s).value;
      StartsWith(s[q + 1..], r.value) && (q + 1 + |r.value| == |s| || s[q + 1 + |r.value|] == '"')
  {
    match QuoteIndex(s)
    case None => None
    case Some(q) => Some(UpToQuote(s[q + 1..]))
  }

  /** `rest` up to its first double quote, or all of it. */
  function UpToQuote(rest: string): (r: string)
    ensures '"' !in r && StartsWith(rest, r) && (|r| == |rest| || rest[|r|] == '"')
  {
    match QuoteIndex(rest)
    case None => rest
    case Some(j) => rest[..j]
  }

  // ---------------------------------------------------------------------------
  // The classification of one line
  // ---------------------------------------------------------------------------

  /** Which branch of the if/elif chain a line takes, with the value it carries. */
  datatype LineKind =
    | TermHeader
    | IdLine(value: string)
    | NameLine(value: string)
    | SynonymLine(text: Option<string>)
    | OtherLine

  function Classify(raw: string): LineKind {
    var line := Strip(raw);
    if line == "[Term]" then TermHeader
    else if StartsWith(line, "id:") then IdLine(Strip(RemoveAll(line, "id:")))
    else if StartsWith(line, "name:") then NameLine(Strip(RemoveAll(line, "name:")))
    else if StartsWith(line, "synonym:") then SynonymLine(QuotedText(line))
    else OtherLine
  }

  /** The classification of every line of a file, position by position. */
  function Kinds(lines: seq<string>): (ks: seq<LineKind>)
    ensures |ks| == |lines| && forall i :: 0 <= i < |lines| ==> ks[i] == Classify(lines[i])
  {
    seq(|lines|, i requires 0 <= i < |lines| => Classify(lines[i]))
  }

  // ---------------------------------------------------------------------------
  // What a line of each shape is classified as
  // ---------------------------------------------------------------------------

  /** `pat` occurs in `s` at position `i`. */
  predicate OccursAt(s: string, pat: string, i: nat) {
    i + |pat| <= |s| && s[i..i + |pat|] == pat
  }

  /** `pat` does not occur anywhere in `s`. */
  predicate NoOccurrence(s: string, pat: string) {
    forall i: nat :: i <= |s| ==> !OccursAt(s, pat, i)
  }

  lemma {:induction false} RemoveAllAbsent(s: string, pat: string)
    requires |pat| > 0 && NoOccurrence(s, pat)
    ensures RemoveAll(s, pat) == s
    decreases |s|
  {
    if |s| >= |pat| {
      assert !OccursAt(s, pat, 0);
      var t := s[1..];
      forall i: nat | i <= |t| ensures !OccursAt(t, pat, i) {
        assert !OccursAt(s, pat, i + 1);
        if i + |pat| <= |t| {
          assert t[i..i + |pat|] == s[i + 1..i + 1 + |pat|];
        }
      }
      RemoveAllAbsent(t, pat);
      assert [s[0]] + t == s;
    }
  }

  /** A leading occurrence is removed and the scan goes on after it. */
  lemma RemoveAllLeading(pat: string, v: string)
    requires |pat| > 0
    ensures RemoveAll(pat + v, pat) == RemoveAll(v, pat)
  {
    assert (pat + v)[..|pat|] == pat;
    assert (pat + v)[|pat|..] == v;
  }

  /** The value of a key line is the rest of the line, when the key does not occur again in it. */
  lemma RemoveLeadingKey(pat: string, v: string)
    requires |pat| > 0 && NoOccurrence(v, pat)
    ensures RemoveAll(pat + v, pat) == v
  {
    RemoveAllLeading(pat, v);
    RemoveAllAbsent(v, pat);
  }

  lemma {:induction false} RemoveAllShorter(s: string, pat: string, i: nat)
    requires |pat| > 0 && OccursAt(s, pat, i)
    ensures |RemoveAll(s, pat)| < |s|
    decreases |s|
  {
    if s[..|pat|] != pat {
      assert i != 0;
      assert s[1..][i - 1..i - 1 + |pat|] == s[i..i + |pat|];
      RemoveAllShorter(s[1..], pat, i - 1);
    }
  }

  /** `s.replace(pat, "")` returns `s` itself exactly when `pat` does not occur in `s`. */
  lemma RemoveAllUnchangedIff(s: string, pat: string)
    requires |pat| > 0
    ensures RemoveAll(s, pat) == s <==> NoOccurrence(s, pat)
  {
    if NoOccurrence(s, pat) {
      RemoveAllAbsent(s, pat);
    } else {
      var i: nat :| i <= |s| && OccursAt(s, pat, i);
      RemoveAllShorter(s, pat, i);
    }
  }

  /** Text without the first character of `pat` passes through unchanged. */
  lemma {:induction false} RemoveAllSkip(a: string, t: string, pat: string)
    requires |pat| > 0 && pat[0] !in a
    ensures RemoveAll(a + t, pat) == a + RemoveAll(t, pat)
    decreases |a|
  {
    if a != [] {
      var s := a + t;
      assert s[0] == a[0];
      if |s| >= |pat| { assert s[..|pat|][0] != pat[0]; }
      assert s[1..] == a[1..] + t;
      RemoveAllSkip(a[1..], t, pat);
      assert [a[0]] + a[1..] == a;
    } else {
      assert a + t == t;
    }
  }

  /**
   * Every occurrence goes, not only the key at the front: with values `a` and
   * `b` that do not contain the key's first letter, `key + a + key + b` gives
   * `a + b` (for instance `"name: a name: b"` gives `" a  b"`).
   */
  lemma RemoveAllRepeatedKey(key: string, a: string, b: string)
    requires |key| > 0 && key[0] !in a && key[0] !in b
    ensures RemoveAll(key + a + key + b, key) == a + b
  {
    assert key + a + key + b == key + (a + (key + b));
    RemoveAllLeading(key, a + (key + b));
    RemoveAllSkip(a, key + b, key);
    RemoveAllLeading(key, b);
    NoOccurrenceByChar(b, key, 0);
    RemoveAllAbsent(b, key);
  }

  /** A line with no whitespace at either end is its own `strip()`. */
  lemma StripUnchanged(s: string)
    requires s == [] || (!IsSpace(s[0]) && !IsSpace(s[|s| - 1]))
    ensures Strip(s) == s
  {
    assert StripLeft(s) == s;
  }

  lemma {:induction false} QuoteIndexSkip(p: string, q: string)
    requires '"' !in p
    ensures QuoteIndex(p + q) == match QuoteIndex(q) case None => None case Some(i) => Some(|p| + i)
  {
    if p != [] {
      assert (p + q)[1..] == p[1..] + q;
      QuoteIndexSkip(p[1..], q);
    } else {
      assert p + q == q;
    }
  }

  /** Text before the first quote never affects the quoted text. */
  lemma QuotedTextSkip(p: string, q: string)
    requires '"' !in p
    ensures QuotedText(p + q) == QuotedText(q)
  {
    QuoteIndexSkip(p, q);
    if QuoteIndex(q).Some? {
      var i := QuoteIndex(q).value;
      assert (p + q)[|p| + i + 1..] == q[i + 1..];
    }
  }

  /** A line that starts with a quote has its first quote at position 0. */
  lemma QuoteIndexFirst(s: string)
    requires s != [] && s[0] == '"'
    ensures QuoteIndex(s) == Some(0)
  {
  }

  /** `'"t" tail'.split('"')[1] == t`: the text between the first two quotes. */
  lemma QuotedTextClosed(t: string, tail: string)
    requires '"' !in t
    ensures QuotedText("\"" + t + "\"" + tail) == Some(t)
  {
    var close := "\"" + tail;
    var rest := t + close;
    var s := "\"" + t + "\"" + tail;
    assert s == "\"" + rest;
    QuoteIndexFirst(s);
    assert s[1..] == rest;
    QuoteIndexFirst(close);
    QuoteIndexSkip(t, close);
    assert QuoteIndex(rest) == Some(|t|);
    assert rest[..|t|] == t;
  }

  /** `'"t'.split('"')[1] == t`: with a single quote, the rest of the line. */
  lemma QuotedTextOpen(t: string)
    requires '"' !in t
    ensures QuotedText("\"" + t) == Some(t)
  {
    var s := "\"" + t;
    assert s[0] == '"';
    assert QuoteIndex(s) == Some(0);
    assert s[1..] == t;
  }

  /** A line with no whitespace at either end, once the key and the rest are joined. */
  lemma {:induction false} KeyLineUnstripped(key: string, v: string)
    requires |key| > 0 && !IsSpace(key[0]) && !IsSpace(key[|key| - 1])
    requires v == [] || !IsSpace(v[|v| - 1])
    ensures Strip(key + v) == key + v
    ensures (key + v)[..|key|] == key
  {
    var line := key + v;
    assert line[0] == key[0];
    assert line[|line| - 1] == if v == [] then key[|key| - 1] else v[|v| - 1];
    StripUnchanged(line);
  }

  /** A line is classified by its stripped form: surrounding whitespace never matters. */
  lemma ClassifyStripped(raw: string)
    ensures Classify(Strip(raw)) == Classify(raw)
  {
    StripUnchanged(Strip(raw));
  }

  /**
   * A line that strips to `id:` and a rest: its value is the rest with every
   * further `id:` removed, and stripped; the rest itself, stripped, when it
   * has no further `id:`.
   */
  lemma ClassifyIdLine(raw: string, v: string)
    requires Strip(raw) == "id:" + v
    ensures Classify(raw) == IdLine(Strip(RemoveAll(v, "id:")))
    ensures NoOccurrence(v, "id:") ==> Classify(raw) == IdLine(Strip(v))
  {
    var line := Strip(raw);
    assert line[..3] == "id:";
    assert line != "[Term]" by { assert line[0] != "[Term]"[0]; }
    RemoveAllLeading("id:", v);
    if NoOccurrence(v, "id:") { RemoveAllAbsent(v, "id:"); }
  }

  /** A line that strips to `name:` and a rest, as ClassifyIdLine. */
  lemma ClassifyNameLine(raw: string, v: string)
    requires Strip(raw) == "name:" + v
    ensures Classify(raw) == NameLine(Strip(RemoveAll(v, "name:")))
    ensures NoOccurrence(v, "name:") ==> Classify(raw) == NameLine(Strip(v))
  {
    var line := Strip(raw);
    assert line[..5] == "name:";
    assert line != "[Term]" by { assert line[0] != "[Term]"[0]; }
    assert !StartsWith(line, "id:") by { assert line[0] != "id:"[0]; }
    RemoveAllLeading("name:", v);
    if NoOccurrence(v, "name:") { RemoveAllAbsent(v, "name:"); }
  }

  /** A line that strips to `synonym:` and a rest contributes the quoted text of the rest, or nothing without a quote. */
  lemma ClassifySynonymLine(raw: string, rest: string)
    requires Strip(raw) == "synonym:" + rest
    ensures Classify(raw) == SynonymLine(QuotedText(rest))
  {
    var line := Strip(raw);
    assert line[..8] == "synonym:";
    assert line != "[Term]" by { assert line[0] != "[Term]"[0]; }
    assert !StartsWith(line, "id:") by { assert line[0] != "id:"[0]; }
    assert !StartsWith(line, "name:") by { assert line[0] != "name:"[0]; }
    QuotedTextSkip("synonym:", rest);
  }

  /** `synonym: "t" EXACT []`, however indented: the synonym is `t`. */
  lemma ClassifySynonymQuoted(raw: string, t: string, tail: string)
    requires '"' !in t && Strip(raw) == "synonym: \"" + t + "\"" + tail
    ensures Classify(raw) == SynonymLine(Some(t))
  {
    var q := "\"" + t + "\"" + tail;
    assert Strip(raw) == "synonym:" + (" " + q);
    ClassifySynonymLine(raw, " " + q);
    QuotedTextSkip(" ", q);
    QuotedTextClosed(t, tail);
  }

  /** A key cannot occur in a value that lacks one of the key's characters. */
  lemma NoOccurrenceByChar(v: string, pat: string, k: nat)
    requires k < |pat| && pat[k] !in v
    ensures NoOccurrence(v, pat)
  {
    forall i: nat | i <= |v| ensures !OccursAt(v, pat, i) {
      if i + |pat| <= |v| {
        assert v[i..i + |pat|][k] == v[i + k];
      }
    }
  }

  lemma StripLeadingSpace(w: string)
    requires w != [] && !IsSpace(w[0]) && !IsSpace(w[|w| - 1])
    ensures Strip(" " + w) == w
  {
    assert (" " + w)[1..] == w;
    StripUnchanged(w);
  }

  /** A line is ignored exactly when, stripped, it is neither `[Term]` nor starts with one of the three keys. */
  lemma ClassifyOther(raw: string)
    ensures Classify(raw) == OtherLine <==>
      Strip(raw) != "[Term]" && !StartsWith(Strip(raw), "id:") &&
      !StartsWith(Strip(raw), "name:") && !StartsWith(Strip(raw), "synonym:")
  {
  }

  /** An OBO tag such as `is_a:`: a colon at the end and nowhere before it. */
  predicate IsKey(key: string) {
    |key| > 0 && key[|key| - 1] == ':' && ':' !in key[..|key| - 1]
  }

  /** A line that starts with one key does not start with another. */
  lemma KeysDistinct(key: string, other: string, v: string)
    requires IsKey(key) && IsKey(other) && key != other
    ensures !StartsWith(key + v, other)
  {
    var n, m, line := |key|, |other|, key + v;
    if m > |line| {
    } else if m == n {
      assert line[..m] == key;
    } else if m < n {
      assert key[..n - 1][m - 1] == key[m - 1];
      assert line[..m][m - 1] != other[m - 1];
    } else {
      assert other[..m - 1][n - 1] == other[n - 1];
      assert line[..m][n - 1] != other[n - 1];
    }
  }

  /**
   * A line with any other key, such as `is_a:`, `subset:`, `def:` or
   * `synonymtypedef:`, is ignored, whatever follows the key.
   */
  lemma ClassifyOtherKey(raw: string, key: string, v: string)
    requires IsKey(key) && key != "id:" && key != "name:" && key != "synonym:"
    requires Strip(raw) == key + v
    ensures Classify(raw) == OtherLine
  {
    var line := key + v;
    assert line[|key| - 1] == ':';
    assert line != "[Term]" by { assert ':' !in "[Term]"; }
    assert IsKey("id:") && IsKey("name:") && IsKey("synonym:");
    KeysDistinct(key, "id:", v);
    KeysDistinct(key, "name:", v);
    KeysDistinct(key, "synonym:", v);
    ClassifyOther(raw);
  }

  /** The commonest line of a `[Term]` stanza, `is_a: HP:0000118 ! Phenotypic abnormality`, is ignored. */
  lemma ClassifyIsALine(raw: string, v: string)
    requires Strip(raw) == "is_a:" + v
    ensures Classify(raw) == OtherLine
  {
    assert IsKey("is_a:") by { assert "is_a:"[..4] == "is_a"; }
    ClassifyOtherKey(raw, "is_a:", v);
  }

  /** `synonymtypedef:` shares its first seven letters with `synonym:` but is ignored. */
  lemma ClassifySynonymTypedefLine(raw: string, v: string)
    requires Strip(raw) == "synonymtypedef:" + v
    ensures Classify(raw) == OtherLine
  {
    assert IsKey("synonymtypedef:") by { assert "synonymtypedef:"[..14] == "synonymtypedef"; }
    ClassifyOtherKey(raw, "synonymtypedef:", v);
  }

  /** `key + " " + value`, for the key `id:` or `name:`, carries `value`. */
  lemma ClassifyPair(key: string, v: string, value: string, k: nat)
    requires key == "id:" || key == "name:"
    requires v == " " + value && value != [] && !IsSpace(value[0]) && !IsSpace(value[|value| - 1])
    requires k < |key| && key[k] !in v
    ensures key == "id:" ==> Classify(key + v) == IdLine(value)
    ensures key == "name:" ==> Classify(key + v) == NameLine(value)
  {
    NoOccurrenceByChar(v, key, k);
    assert v[|v| - 1] == value[|value| - 1];
    StripLeadingSpace(value);
    KeyLineUnstripped(key, v);
    if key == "id:" { ClassifyIdLine(key + v, v); } else { ClassifyNameLine(key + v, v); }
  }
}
