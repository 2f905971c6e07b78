/**
 * `split_frontmatter` of scripts/sqf_emit.py: cutting a journal document
 * into its metadata text and its body, and reading the metadata either with
 * a YAML loader (an input here) or with the hand-written fallback scanner,
 * which only ever collects the flat `key: value` lines nested under a
 * `trailers:` line.
 */
module FrontMatter {
  import opened Wrappers
  import opened Text
  import opened Yaml

  const Delimiter := "---"
  const Header := "trailers:"

  // ---------------------------------------------------------------------
  // The cut: text.split("---", 2)
  // ---------------------------------------------------------------------

  /** A document either has no metadata block, or a block's text and the body after it. */
  datatype Cut = NoFrontMatter | Block(meta: string, body: string)

  /**
   * The cut made by `text.split("---", 2)` once the text starts with `---`:
   * the marker is a substring, not a line, so the metadata is everything
   * up to the next `---` and the body keeps whatever follows it, leading
   * newline included.
   */
  function CutFrontMatter(text: string): (r: Cut)
    ensures r.NoFrontMatter? <==>
              !StartsWith(text, Delimiter) || forall i :: 3 <= i ==> !OccursAt(text, Delimiter, i)
    ensures r.Block? ==> text == Delimiter + r.meta + Delimiter + r.body
    ensures r.Block? ==> forall i :: 3 <= i < 3 + |r.meta| ==> !OccursAt(text, Delimiter, i)
  {
    if !StartsWith(text, Delimiter) then NoFrontMatter
    else match Find(text, Delimiter, 3)
      case None => NoFrontMatter
      case Some(j) =>
        assert text == text[..3] + text[3..j] + text[j..j + 3] + text[j + 3..];
        Block(text[3..j], text[j + 3..])
  }

  /** The body `split_frontmatter` returns: the whole text when there is no block. */
  function BodyOf(text: string): (body: string)
    ensures CutFrontMatter(text).NoFrontMatter? ==> body == text
    ensures CutFrontMatter(text).Block? ==> text == Delimiter + CutFrontMatter(text).meta + Delimiter + body
  {
    match CutFrontMatter(text)
    case NoFrontMatter => text
    case Block(_, body) => body
  }

  // ---------------------------------------------------------------------
  // The fallback scanner, stated declaratively
  // ---------------------------------------------------------------------

  /** `ln.startswith(" ") or ln.startswith("\t")`. */
  predicate Indented(line: string) {
    StartsWith(line, " ") || StartsWith(line, "\t")
  }

  /** How the scanner sees one line. */
  datatype Line =
    | HeaderLine                          // its trimmed content is `trailers:`
    | PairLine(key: string, value: string) // indented, and its trimmed content holds a colon
    | NestedLine                          // indented, without a colon
    | PlainLine                           // anything else, an empty line included

  /**
   * The branch the scanner's loop body takes on a line, with the pair it
   * would store: the key is the trimmed text before the first colon, the
   * value the trimmed text after it stripped of `"` and then of `'`.
   */
  function Classify(line: string): (kind: Line)
    ensures kind.HeaderLine? <==> Trim(line) == Header
    ensures kind.PlainLine? <==> Trim(line) != Header && !Indented(line)
    ensures kind.NestedLine? <==> Trim(line) != Header && Indented(line) && ':' !in Trim(line)
    ensures kind.PairLine? <==> Trim(line) != Header && Indented(line) && ':' in Trim(line)
  {
    var s := Trim(line);
    if s == Header then HeaderLine
    else if !Indented(line) then PlainLine
    else if ':' !in s then NestedLine
    else
      var (k, v) := SplitOnce(s, ':');
      PairLine(Trim(k), StripChar(StripChar(Trim(v), '"'), '\''))
  }

  /** The classification of every line, in order. */
  function Kinds(lines: seq<string>): (kinds: seq<Line>)
    ensures |kinds| == |lines|
  {
    seq(|lines|, i requires 0 <= i < |lines| => Classify(lines[i]))
  }

  /**
   * The scanner is inside the trailers scope when it reaches line `i`:
   * some earlier line is a `trailers:` line and no plain line follows it.
   */
  ghost predicate InScope(kinds: seq<Line>, i: nat)
    requires i <= |kinds|
  {
    exists j :: 0 <= j < i && kinds[j].HeaderLine? && NoPlainBetween(kinds, j, i)
  }

  /** No line strictly between `j` and `i` is plain. */
  ghost predicate NoPlainBetween(kinds: seq<Line>, j: nat, i: nat)
    requires i <= |kinds|
  {
    forall m :: j < m < i ==> !kinds[m].PlainLine?
  }

  /** Line `c` yields a pair: it is a pair line and lies in the scope. */
  ghost predicate Captures(kinds: seq<Line>, c: nat)
    requires c < |kinds|
  {
    kinds[c].PairLine? && InScope(kinds, c)
  }

  /** The pairs captured from the first `n` lines; a later pair for a key overwrites an earlier one. */
  ghost function Scanned(kinds: seq<Line>, n: nat): map<string, string>
    requires n <= |kinds|
  {
    if n == 0 then map[]
    else if Captures(kinds, n - 1) then Scanned(kinds, n - 1)[kinds[n - 1].key := kinds[n - 1].value]
    else Scanned(kinds, n - 1)
  }

  /** The scope after one more line: opened by a `trailers:` line, kept by any non-plain line, closed by a plain one. */
  lemma ScopeStep(kinds: seq<Line>, i: nat)
    requires i < |kinds|
    ensures InScope(kinds, i + 1) <==> kinds[i].HeaderLine? || (InScope(kinds, i) && !kinds[i].PlainLine?)
  {
    if kinds[i].HeaderLine? {
      assert NoPlainBetween(kinds, i, i + 1);
    }
    if InScope(kinds, i) && !kinds[i].PlainLine? {
      var j :| 0 <= j < i && kinds[j].HeaderLine? && NoPlainBetween(kinds, j, i);
      assert NoPlainBetween(kinds, j, i + 1);
    }
    if InScope(kinds, i + 1) && !kinds[i].HeaderLine? {
      var j :| 0 <= j < i + 1 && kinds[j].HeaderLine? && NoPlainBetween(kinds, j, i + 1);
      assert j < i && !kinds[i].PlainLine?;
      assert NoPlainBetween(kinds, j, i);
    }
  }

  /**
   * A plain line (an unindented line other than `trailers:`, an empty line
   * included) closes the scope: a line after it is in scope only if a later
   * `trailers:` line reopened it.
   */
  lemma ScopeClosed(kinds: seq<Line>, m: nat, i: nat)
    requires m < i <= |kinds|
    requires kinds[m].PlainLine?
    requires InScope(kinds, i)
    ensures exists j :: m < j < i && kinds[j].HeaderLine?
  {
    var j :| 0 <= j < i && kinds[j].HeaderLine? && NoPlainBetween(kinds, j, i);
    assert m < j;
  }

  /** One step of the scan: a pair line in scope is stored, every other line leaves the map as it is. */
  lemma ScanStep(kinds: seq<Line>, i: nat)
    requires i < |kinds|
    ensures InScope(kinds, i + 1) <==> kinds[i].HeaderLine? || (InScope(kinds, i) && !kinds[i].PlainLine?)
    ensures Scanned(kinds, i + 1) ==
              if kinds[i].PairLine? && InScope(kinds, i) then Scanned(kinds, i)[kinds[i].key := kinds[i].value]
              else Scanned(kinds, i)
  {
    ScopeStep(kinds, i);
  }

  /**
   * A key is collected exactly when some captured line carries it, and its
   * value is that of the last such line.
   */
  lemma {:induction false} ScannedKeys(kinds: seq<Line>, n: nat, k: string)
    requires n <= |kinds|
    ensures k in Scanned(kinds, n) <==>
              exists c :: 0 <= c < n && Captures(kinds, c) && kinds[c].key == k
    ensures k in Scanned(kinds, n) ==>
              exists c :: 0 <= c < n && Captures(kinds, c) && kinds[c].key == k
                          && Scanned(kinds, n)[k] == kinds[c].value
                          && forall d :: c < d < n && Captures(kinds, d) ==> kinds[d].key != k
  {
    if n > 0 {
      ScannedKeys(kinds, n - 1, k);
      var last := n - 1;
      if Captures(kinds, last) && kinds[last].key == k {
        assert Scanned(kinds, n)[k] == kinds[last].value;
      } else if k in Scanned(kinds, n) {
        var c :| 0 <= c < n - 1 && Captures(kinds, c) && kinds[c].key == k
                 && Scanned(kinds, n - 1)[k] == kinds[c].value
                 && forall d :: c < d < n - 1 && Captures(kinds, d) ==> kinds[d].key != k;
        assert Scanned(kinds, n)[k] == kinds[c].value;
      }
    }
  }

  /** A dictionary of strings as a YAML value. */
  function StrDict(entries: map<string, string>): (v: Value)
    ensures v.Dict? && v.entries.Keys == entries.Keys
    ensures forall k :: k in entries ==> v.entries[k] == Str(entries[k])
  {
    Dict(map k | k in entries :: Str(entries[k]))
  }

  /** The metadata map the fallback returns: `{"trailers": {...}}`, or `{}` when nothing was captured. */
  function FallbackMap(trailers: map<string, string>): (fm: map<string, Value>)
    ensures fm.Keys <= {"trailers"}
    ensures "trailers" in fm <==> trailers != map[]
    ensures "trailers" in fm ==> fm["trailers"] == StrDict(trailers)
  {
    if trailers == map[] then map[] else map["trailers" := StrDict(trailers)]
  }

  /** What the fallback scanner reads from a metadata text. */
  ghost function FallbackOf(meta: string): (fm: map<string, Value>)
    ensures fm.Keys <= {"trailers"}
    ensures "trailers" in fm ==> fm["trailers"].Dict? && fm["trailers"].entries != map[]
    ensures "trailers" in fm ==> forall k :: k in fm["trailers"].entries ==> fm["trailers"].entries[k].Str?
  {
    var kinds := Kinds(SplitLines(meta));
    FallbackMap(Scanned(kinds, |kinds|))
  }

  /**
   * The fallback branch of `split_frontmatter`: a scan of the metadata
   * lines in which the `in_tr` flag tracks the scope and each captured pair
   * is written into the trailers dictionary, which is returned under
   * `trailers` only when it is not empty.
   */
  method ParseFallback(meta: string) returns (fm: map<string, Value>)
    ensures fm == FallbackOf(meta)
  {
    var lines := SplitLines(meta);
    ghost var kinds := Kinds(lines);
    var trailers: map<string, string> := map[];
    var inTr := false;
    var i := 0;
    while i < |lines|
      invariant 0 <= i <= |lines|
      invariant inTr == InScope(kinds, i)
      invariant trailers == Scanned(kinds, i)
    {
      var ln := lines[i];
      ScanStep(kinds, i);
      assert kinds[i] == Classify(ln);
      if Trim(ln) == Header {
        inTr := true;
      } else if inTr {
        if StartsWith(ln, " ") || StartsWith(ln, "\t") {
          var s := Trim(ln);
          if ':' in s {
            var (k, v) := SplitOnce(s, ':');
            trailers := trailers[Trim(k) := StripChar(StripChar(Trim(v), '"'), '\'')];
          }
        } else {
          inTr := false;
        }
      }
      i := i + 1;
    }
    fm := map[];
    if trailers != map[] {
      fm := fm["trailers" := StrDict(trailers)];
    }
  }

  /** How metadata is read: with a YAML loader (its outcome per text is an input), or with the fallback scanner. */
  datatype Strategy = Structured(load: string -> Parsed) | Fallback

  /** The metadata `split_frontmatter` returns: a failed load reads as `{}`. */
  ghost function FrontMatterOf(text: string, how: Strategy): (fm: map<string, Value>)
    ensures CutFrontMatter(text).NoFrontMatter? ==> fm == map[]
    ensures how.Fallback? ==> fm.Keys <= {"trailers"}
  {
    match CutFrontMatter(text)
    case NoFrontMatter => map[]
    case Block(meta, _) =>
      match how
      case Structured(load) =>
        (match load(meta) case Failure(_) => map[] case Mapping(data) => data)
      case Fallback => FallbackOf(meta)
  }

  /** `split_frontmatter(text)`. */
  method SplitFrontmatter(text: string, how: Strategy) returns (fm: map<string, Value>, body: string)
    ensures fm == FrontMatterOf(text, how)
    ensures body == BodyOf(text)
  {
    if !StartsWith(text, Delimiter) {
      return map[], text;
    }
    var second := Find(text, Delimiter, 3);
    if second.None? {
      return map[], text;
    }
    var metaText := text[3..second.value];
    body := text[second.value + 3..];
    match how {
      case Structured(load) =>
        match load(metaText) {
          case Failure(_) => fm := map[];
          case Mapping(data) => fm := data;
        }
      case Fallback =>
        fm := ParseFallback(metaText);
    }
  }

  /**
   * The scan captures something exactly when some line is captured, so the
   * fallback yields `trailers` exactly then (and never any other key, by
   * `FallbackMap`).
   */
  lemma ScannedEmpty(kinds: seq<Line>)
    ensures Scanned(kinds, |kinds|) != map[] <==> exists c :: 0 <= c < |kinds| && Captures(kinds, c)
  {
    if exists c :: 0 <= c < |kinds| && Captures(kinds, c) {
      var c :| 0 <= c < |kinds| && Captures(kinds, c);
      ScannedKeys(kinds, |kinds|, kinds[c].key);
    } else if Scanned(kinds, |kinds|) != map[] {
      var k :| k in Scanned(kinds, |kinds|);
      ScannedKeys(kinds, |kinds|, k);
    }
  }

  // ---------------------------------------------------------------------
  // A trailers block written out and read back
  // ---------------------------------------------------------------------

  /** The indented line `  key: value` a journal holds for one trailer. */
  function PairText(k: string, v: string): string {
    "  " + k + ": " + v
  }

  /** The indented lines of the pairs, in order. */
  function PairLines(pairs: seq<(string, string)>): (lines: seq<string>)
    ensures |lines| == |pairs|
    ensures forall i :: 0 <= i < |pairs| ==> lines[i] == PairText(pairs[i].0, pairs[i].1)
  {
    seq(|pairs|, i requires 0 <= i < |pairs| => PairText(pairs[i].0, pairs[i].1))
  }

  /**
   * The metadata of a journal whose front matter is only a trailers block:
   * the empty rest of the opening `---` line, the `trailers:` line, then
   * one indented pair per line.
   */
  function TrailerBlock(pairs: seq<(string, string)>): string {
    Unlines(["", Header] + PairLines(pairs))
  }

  /** The dictionary the pairs make, a later pair for a key replacing an earlier one. */
  function PairsMap(pairs: seq<(string, string)>): map<string, string> {
    if pairs == [] then map[]
    else
      var n := |pairs| - 1;
      PairsMap(pairs[..n])[pairs[n].0 := pairs[n].1]
  }

  /** No whitespace at either end. */
  predicate Unpadded(s: string) {
    s == [] || (s[0] !in Whitespace && s[|s| - 1] !in Whitespace)
  }

  /**
   * A key and value the scanner reads back as written: single-line, the key
   * without a colon, neither padded with whitespace, and the value not
   * empty and not starting or ending with a quote.
   */
  predicate Writable(k: string, v: string) {
    && ':' !in k && '\n' !in k && Unpadded(k)
    && v != [] && '\n' !in v && Unpadded(v)
    && v[0] != '"' && v[0] != '\'' && v[|v| - 1] != '"' && v[|v| - 1] != '\''
  }

  /** A written pair line is indented, is not the header, and trims to `key: value`, which holds a colon. */
  lemma PairLineShape(k: string, v: string)
    requires Writable(k, v)
    ensures var s := k + ": " + v;
            && Trim(PairText(k, v)) == s && Indented(PairText(k, v)) && s != Header && ':' in s
  {
    var line, s := PairText(k, v), k + ": " + v;
    assert line == "  " + s;
    assert s[|k|] == ':' && s[|s| - 1] == v[|v| - 1];
    assert s[0] == if k == [] then ':' else k[0];
    StripPadded("  ", s, Whitespace);
    assert forall i :: 0 <= i < 8 ==> Header[i] != ':';
    assert |s| != |Header| || s[|k|] != Header[|k|];
    assert line[0..1] == " ";
  }

  /** Cutting `key: value` at its first colon and cleaning both sides gives the key and the value back. */
  lemma PairLineParts(k: string, v: string)
    requires Writable(k, v)
    ensures var (a, b) := SplitOnce(k + ": " + v, ':');
            Trim(a) == k && StripChar(StripChar(Trim(b), '"'), '\'') == v
  {
    var s := k + ": " + v;
    assert s == k + [':'] + (" " + v);
    SplitOnceAt(s, ':', k, " " + v);
    StripKeeps(k, Whitespace);
    StripPadded(" ", v, Whitespace);
    StripKeeps(v, {'"'});
    StripKeeps(v, {'\''});
  }

  /** The scanner classifies a written pair line as that very pair. */
  lemma ClassifyPair(k: string, v: string)
    requires Writable(k, v)
    ensures Classify(PairText(k, v)) == PairLine(k, v)
  {
    PairLineShape(k, v);
    PairLineParts(k, v);
  }

  /** The empty line is plain and the `trailers:` line is the header. */
  lemma ClassifyFixed()
    ensures Classify("") == PlainLine
    ensures Classify(Header) == HeaderLine
  {
    StripKeeps("", Whitespace);
    assert Header[0] !in Whitespace && Header[8] !in Whitespace;
    StripKeeps(Header, Whitespace);
  }

  /** The `trailers:` line holds neither a line break nor a '-'. */
  lemma HeaderChars()
    ensures '\n' !in Header && '-' !in Header
  {
  }

  /** A character that is in no key and no value, and is none of those the block adds, is in no line of the block. */
  lemma BlockLinesAvoid(pairs: seq<(string, string)>, c: char)
    requires c != ' ' && c != ':' && c !in Header
    requires forall i :: 0 <= i < |pairs| ==> c !in pairs[i].0 && c !in pairs[i].1
    ensures var lines := ["", Header] + PairLines(pairs);
            forall i :: 0 <= i < |lines| ==> c !in lines[i]
  {
    var lines := ["", Header] + PairLines(pairs);
    forall i | 0 <= i < |lines| ensures c !in lines[i] {
      if i >= 2 {
        var (k, v) := pairs[i - 2];
        assert lines[i] == "  " + k + ": " + v;
      }
    }
  }

  /** Line `i + 2` of a trailers block is the `i`-th pair's line, which the scanner reads as that pair. */
  lemma KindOfPairLine(pairs: seq<(string, string)>, i: nat)
    requires i < |pairs| && Writable(pairs[i].0, pairs[i].1)
    ensures Kinds(["", Header] + PairLines(pairs))[i + 2] == PairLine(pairs[i].0, pairs[i].1)
  {
    var lines := ["", Header] + PairLines(pairs);
    assert lines[i + 2] == PairText(pairs[i].0, pairs[i].1);
    ClassifyPair(pairs[i].0, pairs[i].1);
  }

  /** How the scanner sees the lines of a trailers block. */
  lemma KindsOfBlock(pairs: seq<(string, string)>)
    requires forall i :: 0 <= i < |pairs| ==> Writable(pairs[i].0, pairs[i].1)
    ensures var kinds := Kinds(["", Header] + PairLines(pairs));
            && |kinds| == |pairs| + 2 && kinds[0] == PlainLine && kinds[1] == HeaderLine
            && forall i :: 0 <= i < |pairs| ==> kinds[i + 2] == PairLine(pairs[i].0, pairs[i].1)
  {
    var lines := ["", Header] + PairLines(pairs);
    ClassifyFixed();
    assert lines[0] == "" && lines[1] == Header;
    forall i | 0 <= i < |pairs| ensures Kinds(lines)[i + 2] == PairLine(pairs[i].0, pairs[i].1) {
      KindOfPairLine(pairs, i);
    }
  }

  /** After the header and the first `n` pair lines, the scan holds the first `n` pairs. */
  lemma {:induction false} ScannedBlock(kinds: seq<Line>, pairs: seq<(string, string)>, n: nat)
    requires |kinds| == |pairs| + 2 && kinds[0] == PlainLine && kinds[1] == HeaderLine
    requires forall i :: 0 <= i < |pairs| ==> kinds[i + 2] == PairLine(pairs[i].0, pairs[i].1)
    requires n <= |pairs|
    ensures InScope(kinds, n + 2)
    ensures Scanned(kinds, n + 2) == PairsMap(pairs[..n])
  {
    forall m | 1 < m < n + 2 ensures !kinds[m].PlainLine? {
      assert kinds[(m - 2) + 2] == PairLine(pairs[m - 2].0, pairs[m - 2].1);
    }
    assert NoPlainBetween(kinds, 1, n + 2);
    if n == 0 {
      assert Scanned(kinds, 1) == map[];
    } else {
      ScannedBlock(kinds, pairs, n - 1);
      var (k, v) := pairs[n - 1];
      assert kinds[(n - 1) + 2] == PairLine(k, v);
      assert Captures(kinds, n + 1);
      assert Scanned(kinds, n + 2) == Scanned(kinds, n + 1)[k := v];
      assert pairs[..n][..n - 1] == pairs[..n - 1] && pairs[..n][n - 1] == (k, v);
    }
  }

  /** A trailers block splits back into the lines it was written from. */
  lemma BlockSplits(pairs: seq<(string, string)>)
    requires forall i :: 0 <= i < |pairs| ==> '\n' !in pairs[i].0 && '\n' !in pairs[i].1
    ensures SplitLines(TrailerBlock(pairs)) == ["", Header] + PairLines(pairs)
  {
    HeaderChars();
    BlockLinesAvoid(pairs, '\n');
    SplitLinesUnlines(["", Header] + PairLines(pairs));
  }

  /** Scanning the lines of a trailers block captures the dictionary of its pairs. */
  lemma BlockScanned(pairs: seq<(string, string)>)
    requires forall i :: 0 <= i < |pairs| ==> Writable(pairs[i].0, pairs[i].1)
    ensures var kinds := Kinds(["", Header] + PairLines(pairs));
            Scanned(kinds, |kinds|) == PairsMap(pairs)
  {
    var kinds := Kinds(["", Header] + PairLines(pairs));
    KindsOfBlock(pairs);
    ScannedBlock(kinds, pairs, |pairs|);
    assert pairs[..|pairs|] == pairs;
  }

  /** What the fallback reads depends on the metadata only through its lines. */
  lemma FallbackOfLines(meta: string, lines: seq<string>)
    requires SplitLines(meta) == lines
    ensures FallbackOf(meta) == FallbackMap(Scanned(Kinds(lines), |lines|))
  {
  }

  /** The fallback scanner reads a trailers block back as the dictionary of its pairs. */
  lemma FallbackReadsBlock(pairs: seq<(string, string)>)
    requires forall i :: 0 <= i < |pairs| ==> Writable(pairs[i].0, pairs[i].1)
    ensures FallbackOf(TrailerBlock(pairs)) == FallbackMap(PairsMap(pairs))
  {
    BlockSplits(pairs);
    BlockScanned(pairs);
    FallbackOfLines(TrailerBlock(pairs), ["", Header] + PairLines(pairs));
  }

  /** A document `---` + metadata + `---` + body is cut after the metadata when the metadata holds no '-'. */
  lemma CutAt(meta: string, body: string)
    requires '-' !in meta
    ensures CutFrontMatter(Delimiter + meta + Delimiter + body) == Block(meta, body)
  {
    var t := Delimiter + meta + Delimiter + body;
    var e := 3 + |meta|;
    assert t[0..3] == Delimiter;
    assert t[e..e + 3] == Delimiter;
    forall i | 3 <= i < e ensures !OccursAt(t, Delimiter, i) {
      assert t[i] == meta[i - 3] && meta[i - 3] in meta;
    }
    assert StartsWith(t, Delimiter) && OccursAt(t, Delimiter, e);
    var f := Find(t, Delimiter, 3);
    assert f.Some? && f.value == e;
    assert t[3..e] == meta && t[e + 3..] == body;
  }

  /** A journal whose '-'-free metadata sits between two `---` yields what the fallback reads from that metadata, and its body. */
  lemma FallbackJournal(meta: string, body: string)
    requires '-' !in meta
    ensures var text := Delimiter + meta + Delimiter + body;
            FrontMatterOf(text, Fallback) == FallbackOf(meta) && BodyOf(text) == body
  {
    CutAt(meta, body);
  }

  /** A trailers block of '-'-free pairs holds no '-'. */
  lemma BlockAvoidsDash(pairs: seq<(string, string)>)
    requires forall i :: 0 <= i < |pairs| ==> '-' !in pairs[i].0 && '-' !in pairs[i].1
    ensures '-' !in TrailerBlock(pairs)
  {
    HeaderChars();
    BlockLinesAvoid(pairs, '-');
    NotInUnlines(["", Header] + PairLines(pairs), '-');
  }

  /**
   * A journal whose front matter is a trailers block of '-'-free pairs
   * yields, under the fallback scanner, `{"trailers": ...}` with the
   * dictionary of its pairs, and its body.
   */
  lemma JournalReadBack(pairs: seq<(string, string)>, body: string)
    requires forall i :: 0 <= i < |pairs| ==> Writable(pairs[i].0, pairs[i].1)
    requires forall i :: 0 <= i < |pairs| ==> '-' !in pairs[i].0 && '-' !in pairs[i].1
    ensures var text := Delimiter + TrailerBlock(pairs) + Delimiter + body;
            FrontMatterOf(text, Fallback) == FallbackMap(PairsMap(pairs)) && BodyOf(text) == body
  {
    BlockAvoidsDash(pairs);
    FallbackJournal(TrailerBlock(pairs), body);
    FallbackReadsBlock(pairs);
  }
}
