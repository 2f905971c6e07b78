/**
 * scripts/sqf_emit.py: choosing the newest journal entry, loading the
 * emitter's configuration over its built-in defaults, and printing either
 * commit trailers or a CI summary from the entry's `trailers` metadata.
 *
 * The file system, the clock and the command line are inputs: the journal
 * listing is a sequence of (path, modification time) pairs, reading a file
 * is a function from path to text, and the loaded configuration document is
 * an optional `Parsed`.
 */
module SqfEmit {
  import opened Wrappers
  import opened Text
  import opened Yaml
  import opened FrontMatter

  // ---------------------------------------------------------------------
  // Configuration: DEF_CFG and load_cfg
  // ---------------------------------------------------------------------

  const TrailerKeys: seq<string> := ["fix", "why", "change", "proof", "ref"]

  const SummaryFormat: string :=
    "### CI Triage\n- **Fix:** {{fix}}\n- **Why:** {{why}}\n- **Change:** {{change}}\n- **Proof:** {{proof}}\n"

  /** A list of strings as a YAML value. */
  function StrList(items: seq<string>): (v: Value)
    ensures v.List? && |v.items| == |items|
    ensures forall i :: 0 <= i < |items| ==> v.items[i] == Str(items[i])
  {
    List(seq(|items|, i requires 0 <= i < |items| => Str(items[i])))
  }

  /** The emitter's built-in configuration. */
  const DefCfg: map<string, Value> := map[
    "journals_dir" := Str("journal_logs"),
    "trailer_keys" := StrList(TrailerKeys),
    "summary_format" := Str(SummaryFormat)
  ]

  /**
   * `load_cfg()`: `file` is `None` when PyYAML is missing or there is no
   * configuration file, a `Failure` when reading or loading it raised, and
   * otherwise the loaded mapping. Loaded values other than `None` override
   * the defaults, extra keys are kept, and any failure gives the defaults.
   */
  function LoadCfg(file: Option<Parsed>): (cfg: map<string, Value>)
    ensures file.None? || file.value.Failure? ==> cfg == DefCfg
    ensures DefCfg.Keys <= cfg.Keys
    ensures file.Some? && file.value.Mapping? ==>
              var data := file.value.data;
              && (forall k :: k in cfg <==> k in DefCfg || (k in data && data[k] != Null))
              && (forall k :: k in data && data[k] != Null ==> cfg[k] == data[k])
              && (forall k :: k in DefCfg && (k !in data || data[k] == Null) ==> cfg[k] == DefCfg[k])
  {
    match file
    case None => DefCfg
    case Some(Failure(_)) => DefCfg
    case Some(Mapping(data)) => Overlay(DefCfg, data)
  }

  /** The strings of a list of strings, or `None` for any other value. */
  function Strings(v: Value): (r: Option<seq<string>>)
    ensures r.Some? <==> v.List? && forall i :: 0 <= i < |v.items| ==> v.items[i].Str?
    ensures r.Some? ==> |r.value| == |v.items| && forall i :: 0 <= i < |v.items| ==> v.items[i] == Str(r.value[i])
  {
    if v.List? then StringItems(v.items) else None
  }

  /** The strings of a sequence of values that are all strings. */
  function StringItems(items: seq<Value>): (r: Option<seq<string>>)
    ensures r.Some? <==> forall i :: 0 <= i < |items| ==> items[i].Str?
    ensures r.Some? ==> |r.value| == |items| && forall i :: 0 <= i < |items| ==> items[i] == Str(r.value[i])
  {
    if items == [] then Some([])
    else
      var n := |items| - 1;
      assert forall i :: 0 <= i < n ==> items[..n][i] == items[i];
      match StringItems(items[..n])
      case None => None
      case Some(init) => if items[n].Str? then Some(init + [items[n].s]) else None
  }

  /** The default keys are a list of strings: the trailer keys in their order. */
  lemma DefaultKeys()
    ensures Strings(DefCfg["trailer_keys"]) == Some(TrailerKeys)
  {
    var r := Strings(DefCfg["trailer_keys"]);
    assert r.Some?;
    assert |r.value| == |TrailerKeys|;
    forall i | 0 <= i < |TrailerKeys| ensures r.value[i] == TrailerKeys[i] {
      assert Str(r.value[i]) == StrList(TrailerKeys).items[i];
    }
    assert r.value == TrailerKeys;
  }

  // ---------------------------------------------------------------------
  // newest_md
  // ---------------------------------------------------------------------

  /**
   * The position `max(files, key=mtime)` picks: a file with the largest
   * modification time, the first such one when several share it.
   */
  function NewestIndex(files: seq<(string, int)>): (i: nat)
    requires files != []
    ensures i < |files|
    ensures forall j :: 0 <= j < |files| ==> files[j].1 <= files[i].1
    ensures forall j :: 0 <= j < i ==> files[j].1 < files[i].1
  {
    var n := |files| - 1;
    if n == 0 then 0
    else
      var i := NewestIndex(files[..n]);
      assert forall j :: 0 <= j < n ==> files[..n][j] == files[j];
      if files[n].1 > files[i].1 then n else i
  }

  /** `newest_md(jdir)` over the listing of the journal directory: `None` for an empty listing. */
  function NewestMd(files: seq<(string, int)>): (r: Option<string>)
    ensures r.None? <==> files == []
    ensures r.Some? ==>
              exists i :: 0 <= i < |files| && files[i].0 == r.value
                          && (forall j :: 0 <= j < |files| ==> files[j].1 <= files[i].1)
                          && (forall j :: 0 <= j < i ==> files[j].1 < files[i].1)
  {
    if files == [] then None else Some(files[NewestIndex(files)].0)
  }

  // ---------------------------------------------------------------------
  // The trailers table and its values
  // ---------------------------------------------------------------------

  /** `str(v)` for the values a trailer may hold. */
  function Show(v: Value): string {
    match v
    case Str(s) => s
    case Bool(b) => if b then "True" else "False"
    case Null => "None"
    case Other(text) => text
    case List(_) => ""
    case Dict(_) => ""
  }

  /** `str()` gives a string itself, `True`/`False`, `None`, and the model's empty text for containers. */
  lemma ShowValues(v: Value)
    ensures v.Str? ==> Show(v) == v.s
    ensures v.Bool? ==> Show(v) == if v.b then "True" else "False"
    ensures v == Null ==> Show(v) == "None"
    ensures v.List? || v.Dict? ==> Show(v) == ""
  {
  }

  /** `str(trailers.get(k, ""))`. */
  function Lookup(t: map<string, Value>, k: string): (s: string)
    ensures k !in t ==> s == ""
    ensures k in t && t[k].Str? ==> s == t[k].s
  {
    if k in t then Show(t[k]) else ""
  }

  /** Python's truth value of a YAML value, where it is known without looking into `Other`. */
  predicate Falsy(v: Value) {
    v == Null || v == Bool(false) || v == Str("") || v == List([]) || v == Dict(map[])
  }

  /**
   * `(fm or {}).get("trailers", {}) or {}`: the trailers dictionary, `{}`
   * when it is missing or a false value, and `None` when it is a true value
   * that is not a dictionary, which has no `.get` for the key loops to call.
   */
  function TrailerTable(fm: map<string, Value>): (t: Option<map<string, Value>>)
    ensures "trailers" !in fm ==> t == Some(map[])
    ensures "trailers" in fm && fm["trailers"].Dict? ==> t == Some(fm["trailers"].entries)
    ensures "trailers" in fm && Falsy(fm["trailers"]) ==> t == Some(map[])
    ensures t.None? <==> "trailers" in fm && !fm["trailers"].Dict? && !Falsy(fm["trailers"])
  {
    if "trailers" !in fm then Some(map[])
    else match fm["trailers"]
      case Dict(entries) => Some(entries)
      case _ => if Falsy(fm["trailers"]) then Some(map[]) else None
  }

  // ---------------------------------------------------------------------
  // Trailers mode
  // ---------------------------------------------------------------------

  /** The trailer line for key `k`: `f"{k}: {val}"` with the stripped value. */
  function TrailerLine(t: map<string, Value>, k: string): string {
    k + ": " + Trim(Lookup(t, k))
  }

  /** A trailer line is the key, `: `, then a value with no whitespace at either end. */
  lemma TrailerLineShape(t: map<string, Value>, k: string)
    ensures var line := TrailerLine(t, k);
            && |line| >= |k| + 2 && line[..|k|] == k && line[|k|..|k| + 2] == ": "
            && var val := line[|k| + 2..]; val == [] || (val[0] !in Whitespace && val[|val| - 1] !in Whitespace)
  {
    assert TrailerLine(t, k)[|k| + 2..] == Trim(Lookup(t, k));
  }

  /** Key `k` yields a line: its stripped value is not empty. */
  predicate Emits(t: map<string, Value>, k: string) {
    Trim(Lookup(t, k)) != ""
  }

  /** The lines trailers mode prints, one per key whose value is not blank, in key order. */
  function TrailerLines(keys: seq<string>, t: map<string, Value>): (lines: seq<string>)
    ensures |lines| <= |keys|
  {
    if keys == [] then []
    else
      var n := |keys| - 1;
      var init := TrailerLines(keys[..n], t);
      if Emits(t, keys[n]) then init + [TrailerLine(t, keys[n])] else init
  }

  /** The trailers loop of `main`: collect a line for every key whose value is not blank. */
  method RenderTrailers(keys: seq<string>, t: map<string, Value>) returns (lines: seq<string>)
    ensures lines == TrailerLines(keys, t)
  {
    lines := [];
    var i := 0;
    while i < |keys|
      invariant 0 <= i <= |keys|
      invariant lines == TrailerLines(keys[..i], t)
    {
      var k := keys[i];
      var val := Trim(Lookup(t, k));
      if val != "" {
        lines := lines + [k + ": " + val];
      }
      assert keys[..i + 1][..i] == keys[..i];
      i := i + 1;
    }
    assert keys[..|keys|] == keys;
  }

  /** Rendering a concatenation of key lists renders each in turn. */
  lemma {:induction false} TrailerLinesAppend(a: seq<string>, b: seq<string>, t: map<string, Value>)
    ensures TrailerLines(a + b, t) == TrailerLines(a, t) + TrailerLines(b, t)
    decreases |b|
  {
    if b == [] {
      assert a + b == a;
    } else {
      var n := |b| - 1;
      assert (a + b)[..|a + b| - 1] == a + b[..n];
      TrailerLinesAppend(a, b[..n], t);
    }
  }

  /** Every printed line is the line of a key with a non-blank value, and every such key prints its line. */
  lemma {:induction false} TrailerLinesExactly(keys: seq<string>, t: map<string, Value>, line: string)
    ensures line in TrailerLines(keys, t) <==>
              exists i :: 0 <= i < |keys| && Emits(t, keys[i]) && line == TrailerLine(t, keys[i])
  {
    if keys != [] {
      var n := |keys| - 1;
      var init, k := keys[..n], keys[n];
      TrailerLinesExactly(init, t, line);
      assert forall i :: 0 <= i < n ==> init[i] == keys[i];
      var last := if Emits(t, k) then [TrailerLine(t, k)] else [];
      assert TrailerLines(keys, t) == TrailerLines(init, t) + last;
      assert line in TrailerLines(keys, t) <==> line in TrailerLines(init, t) || line in last;
    }
  }

  // ---------------------------------------------------------------------
  // Summary mode
  // ---------------------------------------------------------------------

  /** The placeholder `"{{" + k + "}}"` for key `k`. */
  function Placeholder(k: string): (p: string)
    ensures |p| == |k| + 4 && p[0] == '{' && p[1] == '{'
  {
    "{{" + k + "}}"
  }

  /** A placeholder is two opening braces, the key, then two closing braces. */
  lemma PlaceholderShape(k: string)
    ensures var p := Placeholder(k);
            p[..2] == "{{" && p[2..|k| + 2] == k && p[|k| + 2..] == "}}"
  {
  }

  /** The template after the replacements of summary mode, one key after another. */
  function Summary(tmpl: string, keys: seq<string>, t: map<string, Value>): (msg: string)
    ensures keys == [] ==> msg == tmpl
  {
    if keys == [] then tmpl
    else
      var n := |keys| - 1;
      Replace(Summary(tmpl, keys[..n], t), Placeholder(keys[n]), Lookup(t, keys[n]))
  }

  /** The summary loop of `main`: replace every placeholder of each key by the key's value in turn. */
  method RenderSummary(tmpl: string, keys: seq<string>, t: map<string, Value>) returns (msg: string)
    ensures msg == Summary(tmpl, keys, t)
  {
    msg := tmpl;
    var i := 0;
    while i < |keys|
      invariant 0 <= i <= |keys|
      invariant msg == Summary(tmpl, keys[..i], t)
    {
      var k := keys[i];
      msg := Replace(msg, "{{" + k + "}}", Lookup(t, k));
      assert keys[..i + 1][..i] == keys[..i];
      i := i + 1;
    }
    assert keys[..|keys|] == keys;
  }

  /** A piece of a summary template: literal text, or the placeholder of a key. */
  datatype Piece = Lit(text: string) | Hole(key: string)

  function PieceText(p: Piece): string {
    match p
    case Lit(s) => s
    case Hole(k) => Placeholder(k)
  }

  /** The template text the pieces spell. */
  function Render(ps: seq<Piece>): string {
    if ps == [] then "" else PieceText(ps[0]) + Render(ps[1..])
  }

  /** A key without braces. */
  predicate PlainKey(k: string) {
    '{' !in k && '}' !in k
  }

  /** Literal text without an opening brace, and keys without braces: no placeholder hides in the text. */
  predicate Braceless(ps: seq<Piece>) {
    forall i :: 0 <= i < |ps| ==>
      match ps[i]
      case Lit(s) => '{' !in s
      case Hole(k) => PlainKey(k)
  }

  /** A hole of a key in `keys` holding that key's value; any other piece as it is. */
  function FillPiece(p: Piece, keys: seq<string>, t: map<string, Value>): Piece {
    match p
    case Hole(k) => if k in keys then Lit(Lookup(t, k)) else p
    case Lit(_) => p
  }

  /** The pieces once every hole of a key in `keys` holds that key's value. */
  function Filled(ps: seq<Piece>, keys: seq<string>, t: map<string, Value>): (qs: seq<Piece>)
    ensures |qs| == |ps|
  {
    if ps == [] then [] else [FillPiece(ps[0], keys, t)] + Filled(ps[1..], keys, t)
  }

  /** The placeholder of one plain key does not start anywhere inside the placeholder of another. */
  lemma PlaceholderApart(k: string, k': string, rest: string)
    requires PlainKey(k) && PlainKey(k') && k != k'
    ensures NoMatchBefore(Placeholder(k'), rest, Placeholder(k))
  {
    var s := Placeholder(k') + rest;
    var p := Placeholder(k);
    forall i | 0 <= i < |Placeholder(k')| ensures !OccursAt(s, p, i) {
      if i + |p| <= |s| {
        var m := Mismatch(k, k', i);
        assert s[i + m] == Placeholder(k')[i + m];
        assert s[i..i + |p|][m] != p[m];
      }
    }
  }

  /** A position at which the placeholder of `k` differs from the text from `i` on in the placeholder of `k'`. */
  ghost function Mismatch(k: string, k': string, i: nat): (m: nat)
    requires PlainKey(k) && PlainKey(k') && k != k'
    requires i < |k'| + 4
    ensures m < |k| + 4 && i + m < |k'| + 4
    ensures Placeholder(k')[i + m] != Placeholder(k)[m]
  {
    var p, q := Placeholder(k), Placeholder(k');
    if i == 0 then
      if |k| < |k'| then
        assert p[2 + |k|] == '}' && q[2 + |k|] == k'[|k|] && k'[|k|] in k';
        2 + |k|
      else if |k| > |k'| then
        assert q[2 + |k'|] == '}' && p[2 + |k'|] == k[|k'|] && k[|k'|] in k;
        2 + |k'|
      else
        var j :| 0 <= j < |k| && k[j] != k'[j];
        assert p[2 + j] == k[j] && q[2 + j] == k'[j];
        2 + j
    else if i == 1 then
      assert p[1] == '{';
      assert q[2] == if k' == [] then '}' else k'[0];
      assert k' != [] ==> k'[0] in k';
      1
    else if i < 2 + |k'| then
      assert q[i] == k'[i - 2] && k'[i - 2] in k';
      0
    else
      assert q[i] == '}';
      0
  }

  /** One replacement turns exactly the holes of its key into its value; the other pieces are kept. */
  lemma {:induction false} ReplaceHoles(ps: seq<Piece>, k: string, t: map<string, Value>)
    requires Braceless(ps) && PlainKey(k)
    ensures Replace(Render(ps), Placeholder(k), Lookup(t, k)) == Render(Filled(ps, [k], t))
  {
    var p, v := Placeholder(k), Lookup(t, k);
    if ps == [] {
      assert Render(ps) == "";
    } else {
      var rest := Render(ps[1..]);
      assert Braceless(ps[1..]) by {
        forall i | 0 <= i < |ps| - 1 ensures ps[1..][i] == ps[i + 1] { }
      }
      ReplaceHoles(ps[1..], k, t);
      assert Render(ps) == PieceText(ps[0]) + rest;
      match ps[0]
      case Lit(s) =>
        forall i | 0 <= i < |s| ensures !OccursAt(s + rest, p, i) {
          assert (s + rest)[i] == s[i];
          assert s[i] in s;
        }
        ReplaceSkips(s, rest, p, v);
      case Hole(k') =>
        if k' == k {
          assert NoMatchBefore([], p + rest, p);
          ReplaceFirst([], rest, p, v);
          assert [] + p + rest == p + rest;
        } else {
          PlaceholderApart(k, k', rest);
          ReplaceSkips(Placeholder(k'), rest, p, v);
        }
    }
  }

  /** Filling holes keeps a template braceless when the values put in carry no opening brace. */
  lemma {:induction false} FilledBraceless(ps: seq<Piece>, keys: seq<string>, t: map<string, Value>)
    requires Braceless(ps)
    requires forall k :: k in keys ==> '{' !in Lookup(t, k)
    ensures Braceless(Filled(ps, keys, t))
  {
    if ps != [] {
      assert Braceless(ps[1..]) by {
        forall i | 0 <= i < |ps| - 1 ensures ps[1..][i] == ps[i + 1] { }
      }
      FilledBraceless(ps[1..], keys, t);
      var qs := Filled(ps, keys, t);
      forall i | 0 <= i < |qs|
        ensures match qs[i] case Lit(s) => '{' !in s case Hole(k) => PlainKey(k)
      {
        if i > 0 {
          assert qs[i] == Filled(ps[1..], keys, t)[i - 1];
        }
      }
    }
  }

  /** Filling the holes of `keys` and then those of `k` fills the holes of `keys + [k]`. */
  lemma {:induction false} FilledStep(ps: seq<Piece>, keys: seq<string>, k: string, t: map<string, Value>)
    ensures Filled(Filled(ps, keys, t), [k], t) == Filled(ps, keys + [k], t)
  {
    if ps != [] {
      FilledStep(ps[1..], keys, k, t);
      assert Filled(ps, keys, t)[1..] == Filled(ps[1..], keys, t);
    }
  }

  /**
   * Summary mode replaces every placeholder of a configured key by the
   * key's value and leaves every other placeholder and all the text as it
   * is, provided the template's text and keys carry no braces and no value
   * put in carries an opening brace (a value may otherwise spell a
   * placeholder that a later key then replaces).
   */
  lemma {:induction false} SummaryFills(ps: seq<Piece>, keys: seq<string>, t: map<string, Value>)
    requires Braceless(ps)
    requires forall k :: k in keys ==> PlainKey(k) && '{' !in Lookup(t, k)
    ensures Summary(Render(ps), keys, t) == Render(Filled(ps, keys, t))
  {
    if keys == [] {
      assert Filled(ps, keys, t) == ps by { FilledNone(ps, t); }
    } else {
      var n := |keys| - 1;
      var init, k := keys[..n], keys[n];
      assert keys == init + [k];
      assert forall j :: j in init ==> j in keys;
      SummaryFills(ps, init, t);
      var mid := Filled(ps, init, t);
      FilledBraceless(ps, init, t);
      ReplaceHoles(mid, k, t);
      FilledStep(ps, init, k, t);
      assert Summary(Render(ps), keys, t) == Replace(Summary(Render(ps), init, t), Placeholder(k), Lookup(t, k));
    }
  }

  /** Filling the holes of no key changes nothing. */
  lemma {:induction false} FilledNone(ps: seq<Piece>, t: map<string, Value>)
    ensures Filled(ps, [], t) == ps
  {
    if ps != [] {
      FilledNone(ps[1..], t);
      assert ps == [ps[0]] + ps[1..];
    }
  }

  /** A value that spells a later key's placeholder is itself replaced: `{{a}}` with `a` = `{{b}}` and `b` = `B` gives `B`. */
  lemma ValueFormsPlaceholder()
    ensures Summary("{{a}}", ["a", "b"], map["a" := Str("{{b}}"), "b" := Str("B")]) == "B"
  {
    var t := map["a" := Str("{{b}}"), "b" := Str("B")];
    ReplaceFirst([], [], "{{a}}", "{{b}}");
    assert Summary("{{a}}", ["a"], t) == "{{b}}" by {
      assert ["a", "b"][..1] == ["a"];
      assert Summary("{{a}}", [], t) == "{{a}}";
      assert [] + "{{a}}" + [] == "{{a}}";
    }
    ReplaceFirst([], [], "{{b}}", "B");
    assert [] + "{{b}}" + [] == "{{b}}";
    assert ["a", "b"][..1] == ["a"];
  }

  /**
   * A value that spells its own key's placeholder leaves that placeholder
   * in place: with every value so chosen, the summary is the template.
   */
  lemma {:induction false} SelfValuesKeepTemplate(tmpl: string, keys: seq<string>, t: map<string, Value>)
    requires forall k :: k in keys ==> Lookup(t, k) == Placeholder(k)
    ensures Summary(tmpl, keys, t) == tmpl
  {
    if keys != [] {
      var n := |keys| - 1;
      assert forall k :: k in keys[..n] ==> k in keys;
      SelfValuesKeepTemplate(tmpl, keys[..n], t);
      ReplaceIdentity(tmpl, Placeholder(keys[n]));
    }
  }

  /** A template without `{` holds no placeholder, so the summary prints it as written. */
  lemma {:induction false} BracelessTemplateKept(tmpl: string, keys: seq<string>, t: map<string, Value>)
    requires '{' !in tmpl
    ensures Summary(tmpl, keys, t) == tmpl
  {
    if keys != [] {
      var n := |keys| - 1;
      BracelessTemplateKept(tmpl, keys[..n], t);
      var p := Placeholder(keys[n]);
      forall i | 0 <= i <= |tmpl| ensures !OccursAt(tmpl, p, i) {
        if i + |p| <= |tmpl| {
          assert tmpl[i..i + |p|][0] == tmpl[i] != p[0];
        }
      }
      ReplaceAbsent(tmpl, p, Lookup(t, keys[n]));
    }
  }

  // ---------------------------------------------------------------------
  // main
  // ---------------------------------------------------------------------

  /** What `main` does: print a text, or raise. */
  datatype Outcome = Printed(text: string) | Raised

  /** The mode: the first argument, `trailers` when there is none. */
  function Mode(args: seq<string>): (mode: string)
    ensures args == [] ==> mode == "trailers"
    ensures args != [] ==> mode == args[0]
  {
    if args == [] then "trailers" else args[0]
  }

  /** The two modes whose loops look trailer values up. */
  predicate LooksUp(mode: string) {
    mode == "trailers" || mode == "summary"
  }

  /** The run gets as far as reading an entry: the journal directory is a string and names a newest entry. */
  predicate Reaches(cfg: map<string, Value>, files: seq<(string, int)>)
    requires DefCfg.Keys <= cfg.Keys
  {
    cfg["journals_dir"].Str? && NewestMd(files).Some? && NewestMd(files).value != ""
  }

  /**
   * The configured values have the types the mode uses them at: the keys
   * are a list of strings where a loop iterates them, and the template is
   * a string in summary mode.
   */
  predicate Usable(mode: string, cfg: map<string, Value>)
    requires DefCfg.Keys <= cfg.Keys
  {
    && (LooksUp(mode) ==> Strings(cfg["trailer_keys"]).Some?)
    && (mode == "summary" ==> cfg["summary_format"].Str?)
  }

  /** The configured trailer keys, where they are a list of strings. */
  function Keys(cfg: map<string, Value>): seq<string>
    requires DefCfg.Keys <= cfg.Keys && Strings(cfg["trailer_keys"]).Some?
  {
    Strings(cfg["trailer_keys"]).value
  }

  /**
   * What `main` prints for arguments `args` (those after the program name),
   * a configuration document, the listing of the journal directory, the
   * journal files' contents, and a way of reading metadata. A journal
   * directory that is not a string makes building the glob pattern raise;
   * a trailers value that is not a dictionary raises at the first key a
   * loop looks up. Whatever is printed ends with a line break, or is empty.
   */
  ghost function Emitted(args: seq<string>, cfgFile: Option<Parsed>, files: seq<(string, int)>,
                         read: string -> string, how: Strategy): (out: Outcome)
    requires Reaches(LoadCfg(cfgFile), files) ==> Usable(Mode(args), LoadCfg(cfgFile))
    ensures out.Printed? ==> out.text == [] || out.text[|out.text| - 1] == '\n'
  {
    var cfg := LoadCfg(cfgFile);
    var mode := Mode(args);
    if !cfg["journals_dir"].Str? then Raised
    else if !Reaches(cfg, files) then Printed("")
    else
      var table := TrailerTable(FrontMatterOf(read(NewestMd(files).value), how));
      if !LooksUp(mode) then Printed("")
      else if table.None? && Keys(cfg) != [] then Raised
      else
        var t := if table.Some? then table.value else map[];
        if mode == "trailers" then Printed(Join(TrailerLines(Keys(cfg), t), "\n") + "\n")
        else Printed(Summary(cfg["summary_format"].s, Keys(cfg), t) + "\n")
  }

  /** `main()`. */
  method Run(args: seq<string>, cfgFile: Option<Parsed>, files: seq<(string, int)>,
             read: string -> string, how: Strategy) returns (out: Outcome)
    requires Reaches(LoadCfg(cfgFile), files) ==> Usable(Mode(args), LoadCfg(cfgFile))
    ensures out == Emitted(args, cfgFile, files, read, how)
  {
    var mode := if |args| > 0 then args[0] else "trailers";
    var cfg := LoadCfg(cfgFile);
    if !cfg["journals_dir"].Str? {
      return Raised;
    }
    var path := NewestMd(files);
    if path.None? || path.value == "" {
      return Printed("");
    }
    var text := read(path.value);
    var fm, _ := SplitFrontmatter(text, how);
    var trailers := TrailerTable(fm);
    var t := if trailers.Some? then trailers.value else map[];
    if mode == "trailers" {
      var keys := Strings(cfg["trailer_keys"]).value;
      if trailers.None? && keys != [] {
        return Raised;
      }
      var lines := RenderTrailers(keys, t);
      return Printed(Join(lines, "\n") + "\n");
    }
    if mode == "summary" {
      var keys := Strings(cfg["trailer_keys"]).value;
      if trailers.None? && keys != [] {
        return Raised;
      }
      var msg := RenderSummary(cfg["summary_format"].s, keys, t);
      return Printed(msg + "\n");
    }
    return Printed("");
  }

  /**
   * `main` raises exactly when the journal directory is not a string, or
   * when a mode that looks values up has keys to look up in a trailers
   * value that is a true non-dictionary.
   */
  lemma RaisesExactly(args: seq<string>, cfgFile: Option<Parsed>, files: seq<(string, int)>,
                      read: string -> string, how: Strategy)
    requires Reaches(LoadCfg(cfgFile), files) ==> Usable(Mode(args), LoadCfg(cfgFile))
    ensures var cfg := LoadCfg(cfgFile);
            Emitted(args, cfgFile, files, read, how).Raised? <==>
              || !cfg["journals_dir"].Str?
              || (&& Reaches(cfg, files) && LooksUp(Mode(args)) && Keys(cfg) != []
                  && TrailerTable(FrontMatterOf(read(NewestMd(files).value), how)).None?)
  {
  }

  /** A mode other than `trailers` and `summary` prints nothing, whatever the journal holds. */
  lemma UnknownModePrintsNothing(args: seq<string>, cfgFile: Option<Parsed>, files: seq<(string, int)>,
                                 read: string -> string, how: Strategy)
    requires LoadCfg(cfgFile)["journals_dir"].Str?
    requires !LooksUp(Mode(args))
    ensures Emitted(args, cfgFile, files, read, how) == Printed("")
  {
  }

  /** Nothing is printed when the journal directory holds no entry, whatever the mode. */
  lemma NoEntryPrintsNothing(args: seq<string>, cfgFile: Option<Parsed>, read: string -> string, how: Strategy)
    requires LoadCfg(cfgFile)["journals_dir"].Str?
    ensures Emitted(args, cfgFile, [], read, how) == Printed("")
  {
  }

  /**
   * Trailers mode with a trailers dictionary prints the trailer lines of
   * the configured keys, in their order, joined by line breaks: one
   * `key: value` line exactly for each configured key whose stripped value
   * is not blank (`TrailerLinesAppend` gives the order).
   */
  lemma TrailersModePrints(args: seq<string>, cfgFile: Option<Parsed>, files: seq<(string, int)>,
                           read: string -> string, how: Strategy, t: map<string, Value>)
    requires Mode(args) == "trailers"
    requires Reaches(LoadCfg(cfgFile), files) && Usable(Mode(args), LoadCfg(cfgFile))
    requires TrailerTable(FrontMatterOf(read(NewestMd(files).value), how)) == Some(t)
    ensures var keys := Keys(LoadCfg(cfgFile));
            && Emitted(args, cfgFile, files, read, how) == Printed(Join(TrailerLines(keys, t), "\n") + "\n")
            && forall line :: line in TrailerLines(keys, t) <==>
                 exists i :: 0 <= i < |keys| && Emits(t, keys[i]) && line == TrailerLine(t, keys[i])
  {
    var keys := Keys(LoadCfg(cfgFile));
    var lines := TrailerLines(keys, t);
    forall line
      ensures line in lines <==>
                exists i :: 0 <= i < |keys| && Emits(t, keys[i]) && line == TrailerLine(t, keys[i])
    {
      TrailerLinesExactly(keys, t, line);
    }
    assert Emitted(args, cfgFile, files, read, how) == Printed(Join(lines, "\n") + "\n");
  }

  /**
   * Summary mode with a trailers dictionary, a template made of text
   * without `{` and placeholders of plain keys, and values without `{`,
   * prints the template with every placeholder of a configured key filled.
   */
  lemma SummaryModePrints(args: seq<string>, cfgFile: Option<Parsed>, files: seq<(string, int)>,
                          read: string -> string, how: Strategy, t: map<string, Value>, ps: seq<Piece>)
    requires Mode(args) == "summary"
    requires Reaches(LoadCfg(cfgFile), files) && Usable(Mode(args), LoadCfg(cfgFile))
    requires TrailerTable(FrontMatterOf(read(NewestMd(files).value), how)) == Some(t)
    requires LoadCfg(cfgFile)["summary_format"].s == Render(ps) && Braceless(ps)
    requires forall k :: k in Keys(LoadCfg(cfgFile)) ==> PlainKey(k) && '{' !in Lookup(t, k)
    ensures Emitted(args, cfgFile, files, read, how) == Printed(Render(Filled(ps, Keys(LoadCfg(cfgFile)), t)) + "\n")
  {
    SummaryFills(ps, Keys(LoadCfg(cfgFile)), t);
  }

  /** Without trailers no key has a value, so trailers mode collects no line. */
  lemma {:induction false} NoTrailersNoLines(keys: seq<string>)
    ensures TrailerLines(keys, map[]) == []
  {
    if keys != [] {
      NoTrailersNoLines(keys[..|keys| - 1]);
      StripKeeps("", Whitespace);
    }
  }

  /**
   * When the YAML loader raises on every metadata text, the newest entry's
   * metadata reads as `{}` and trailers mode prints only a line break.
   */
  lemma FailedLoadPrintsBlank(cfgFile: Option<Parsed>, files: seq<(string, int)>, read: string -> string,
                              load: string -> Parsed)
    requires Reaches(LoadCfg(cfgFile), files) && Usable("trailers", LoadCfg(cfgFile))
    requires forall s :: load(s).Failure?
    ensures Emitted(["trailers"], cfgFile, files, read, Structured(load)) == Printed("\n")
  {
    NoTrailersNoLines(Keys(LoadCfg(cfgFile)));
  }
}
