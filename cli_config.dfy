/**
 * cli/config.py: loading the command-line tool's configuration, checking
 * that every required key is present with the right type, and merging what
 * was loaded over the defaults.
 *
 * Whether PyYAML is importable, whether the configuration file exists and
 * what loading it gives are inputs: `None` stands for "no YAML module or no
 * file", a `Failure` for an exception while reading or loading it (its text
 * is the exception's message), and a `Mapping` for the loaded document.
 */
module CliConfig {
  import opened Wrappers
  import opened Yaml

  /** The Python types the required keys are checked against. */
  datatype Kind = StrKind | BoolKind | ListKind

  /** `typ.__name__`. */
  function KindName(kind: Kind): string {
    match kind
    case StrKind => "str"
    case BoolKind => "bool"
    case ListKind => "list"
  }

  /** `isinstance(v, typ)`: `None` is an instance of none of them. */
  predicate IsInstance(v: Value, kind: Kind) {
    match kind
    case StrKind => v.Str?
    case BoolKind => v.Bool?
    case ListKind => v.List?
  }

  /** `REQUIRED_KEYS`, in its order. */
  const RequiredKeys: seq<(string, Kind)> := [
    ("journals_dir", StrKind),
    ("entry_glob", StrKind),
    ("prefer_frontmatter", BoolKind),
    ("trailer_keys", ListKind),
    ("summary_format", StrKind)
  ]

  /** `DEFAULTS`. */
  const Defaults: map<string, Value> := map[
    "journals_dir" := Str("journal_logs"),
    "entry_glob" := Str("**/*.md"),
    "prefer_frontmatter" := Bool(true),
    "trailer_keys" := List([Str("fix"), Str("why"), Str("change"), Str("proof"), Str("ref")]),
    "summary_format" := Str("### CI Triage\n- **Fix:** {{fix}}\n- **Why:** {{why}}\n- **Change:** {{change}}\n- **Proof:** {{proof}}\n")
  ]

  /** The problem reported for a key that is absent. */
  function Missing(key: string): string {
    "missing '" + key + "'"
  }

  /** The problem reported for a key whose value has the wrong type. */
  function WrongType(key: string, kind: Kind): string {
    "'" + key + "' should be " + KindName(kind)
  }

  /** The problem reported for a document that could not be read or loaded. */
  function InvalidYaml(reason: string): string {
    "invalid YAML: " + reason
  }

  /** A key is satisfied: present with a value of its type. */
  predicate Satisfied(data: map<string, Value>, req: (string, Kind)) {
    req.0 in data && IsInstance(data[req.0], req.1)
  }

  /** The problems one required key adds: none, `missing`, or `should be`. */
  function KeyProblem(data: map<string, Value>, req: (string, Kind)): (ps: seq<string>)
    ensures |ps| <= 1
    ensures ps == [] <==> Satisfied(data, req)
    ensures req.0 !in data ==> ps == [Missing(req.0)]
    ensures req.0 in data && !IsInstance(data[req.0], req.1) ==> ps == [WrongType(req.0, req.1)]
  {
    if req.0 !in data then [Missing(req.0)]
    else if !IsInstance(data[req.0], req.1) then [WrongType(req.0, req.1)]
    else []
  }

  /** The problems of the validation loop over the required keys `reqs`, in their order. */
  function CheckKeys(data: map<string, Value>, reqs: seq<(string, Kind)>): (ps: seq<string>)
    ensures |ps| <= |reqs|
  {
    if reqs == [] then []
    else
      var n := |reqs| - 1;
      CheckKeys(data, reqs[..n]) + KeyProblem(data, reqs[n])
  }

  /** The loaded data satisfies every required key. */
  predicate Valid(data: map<string, Value>) {
    forall i :: 0 <= i < |RequiredKeys| ==> Satisfied(data, RequiredKeys[i])
  }

  /**
   * `load()`: the merged configuration and the problems found. A failed
   * read or load is the only problem and the defaults are kept; otherwise
   * (an absent file reads as `{}`) every required key is checked in order
   * and the loaded values other than `None` are merged over the defaults.
   */
  method Load(file: Option<Parsed>) returns (cfg: map<string, Value>, problems: seq<string>)
    ensures file.Some? && file.value.Failure? ==>
              problems == [InvalidYaml(file.value.reason)] && cfg == Defaults
    ensures file.None? ==> problems == CheckKeys(map[], RequiredKeys) && cfg == Defaults
    ensures file.Some? && file.value.Mapping? ==>
              problems == CheckKeys(file.value.data, RequiredKeys) && cfg == Overlay(Defaults, file.value.data)
    ensures problems == [] <==> file.Some? && file.value.Mapping? && Valid(file.value.data)
  {
    var data: map<string, Value> := map[];
    problems := [];
    if file.Some? {
      match file.value {
        case Failure(reason) =>
          problems := problems + [InvalidYaml(reason)];
          data := map[];
        case Mapping(d) =>
          data := d;
      }
    }
    if problems == [] {
      var i := 0;
      while i < |RequiredKeys|
        invariant 0 <= i <= |RequiredKeys|
        invariant problems == CheckKeys(data, RequiredKeys[..i])
      {
        var (key, typ) := RequiredKeys[i];
        if key !in data {
          problems := problems + [Missing(key)];
        } else if !IsInstance(data[key], typ) {
          problems := problems + [WrongType(key, typ)];
        }
        assert RequiredKeys[..i + 1][..i] == RequiredKeys[..i];
        i := i + 1;
      }
      assert RequiredKeys[..i] == RequiredKeys;
      CheckKeysEmpty(data, RequiredKeys);
      if file.None? {
        assert !Valid(data) by { assert !Satisfied(data, RequiredKeys[0]); }
      }
    }
    cfg := Overlay(Defaults, data);
    if file.None? || file.value.Failure? {
      OverlayEmpty(Defaults);
    }
  }

  /** No problem is reported exactly when every required key is satisfied. */
  lemma {:induction false} CheckKeysEmpty(data: map<string, Value>, reqs: seq<(string, Kind)>)
    ensures CheckKeys(data, reqs) == [] <==> forall i :: 0 <= i < |reqs| ==> Satisfied(data, reqs[i])
  {
    if reqs != [] {
      var n := |reqs| - 1;
      CheckKeysEmpty(data, reqs[..n]);
      assert forall i :: 0 <= i < n ==> reqs[..n][i] == reqs[i];
    }
  }

  /** Checking one more key appends that key's problems. */
  lemma CheckKeysSnoc(data: map<string, Value>, reqs: seq<(string, Kind)>, req: (string, Kind))
    ensures CheckKeys(data, reqs + [req]) == CheckKeys(data, reqs) + KeyProblem(data, req)
  {
    assert (reqs + [req])[..|reqs|] == reqs;
  }

  /** Checking two runs of keys one after the other reports the problems of the first, then those of the second. */
  lemma {:induction false} CheckKeysAppend(data: map<string, Value>, a: seq<(string, Kind)>, b: seq<(string, Kind)>)
    ensures CheckKeys(data, a + b) == CheckKeys(data, a) + CheckKeys(data, b)
    decreases |b|
  {
    if b == [] {
      assert a + b == a;
    } else {
      var init, last := b[..|b| - 1], b[|b| - 1];
      calc {
        CheckKeys(data, a + b);
        { assert a + b == (a + init) + [last]; }
        CheckKeys(data, (a + init) + [last]);
        { CheckKeysSnoc(data, a + init, last); }
        CheckKeys(data, a + init) + KeyProblem(data, last);
        { CheckKeysAppend(data, a, init); }
        (CheckKeys(data, a) + CheckKeys(data, init)) + KeyProblem(data, last);
        CheckKeys(data, a) + (CheckKeys(data, init) + KeyProblem(data, last));
        { CheckKeysSnoc(data, init, last); }
        CheckKeys(data, a) + CheckKeys(data, init + [last]);
        { assert b == init + [last]; }
        CheckKeys(data, a) + CheckKeys(data, b);
      }
    }
  }

  /** Every problem reported is the one problem of some required key, and every unsatisfied key reports its problem. */
  lemma {:induction false} CheckKeysExactly(data: map<string, Value>, reqs: seq<(string, Kind)>, p: string)
    ensures p in CheckKeys(data, reqs) <==> exists i :: 0 <= i < |reqs| && KeyProblem(data, reqs[i]) == [p]
  {
    if reqs != [] {
      var n := |reqs| - 1;
      var init := reqs[..n];
      CheckKeysExactly(data, init, p);
      assert forall i :: 0 <= i < n ==> init[i] == reqs[i];
      var kp := KeyProblem(data, reqs[n]);
      assert p in CheckKeys(data, reqs) <==> p in CheckKeys(data, init) || p in kp;
      assert p in kp <==> kp == [p];
    }
  }

  /** Without a configuration file, each required key is reported missing, in order. */
  lemma AbsentFileProblems()
    ensures CheckKeys(map[], RequiredKeys) == [
              Missing("journals_dir"), Missing("entry_glob"), Missing("prefer_frontmatter"),
              Missing("trailer_keys"), Missing("summary_format")]
  {
    var r := RequiredKeys;
    var e: map<string, Value> := map[];
    assert r[..1][..0] == r[..0] == [];
    assert CheckKeys(e, r[..1]) == [Missing("journals_dir")];
    assert r[..2][..1] == r[..1];
    assert CheckKeys(e, r[..2]) == [Missing("journals_dir"), Missing("entry_glob")];
    assert r[..3][..2] == r[..2];
    assert CheckKeys(e, r[..3]) == [Missing("journals_dir"), Missing("entry_glob"), Missing("prefer_frontmatter")];
    assert r[..4][..3] == r[..3];
    assert CheckKeys(e, r[..4]) == [Missing("journals_dir"), Missing("entry_glob"), Missing("prefer_frontmatter"),
                                    Missing("trailer_keys")];
    assert r[..5][..4] == r[..4];
    assert r[..5] == r;
  }

  /** The defaults hold every required key, and only those, each with a value of its type. */
  lemma DefaultsValid()
    ensures Valid(Defaults)
    ensures CheckKeys(Defaults, RequiredKeys) == []
    ensures Defaults.Keys == set i | 0 <= i < |RequiredKeys| :: RequiredKeys[i].0
  {
    CheckKeysEmpty(Defaults, RequiredKeys);
    var ks := set i | 0 <= i < |RequiredKeys| :: RequiredKeys[i].0;
    assert RequiredKeys[0].0 in ks && RequiredKeys[1].0 in ks && RequiredKeys[2].0 in ks;
    assert RequiredKeys[3].0 in ks && RequiredKeys[4].0 in ks;
  }

  /** A required key loaded as `null` is reported as having the wrong type, yet the merged configuration keeps its default. */
  lemma NullReportedDefaultKept(data: map<string, Value>, i: nat)
    requires i < |RequiredKeys|
    requires RequiredKeys[i].0 in data && data[RequiredKeys[i].0] == Null
    ensures WrongType(RequiredKeys[i].0, RequiredKeys[i].1) in CheckKeys(data, RequiredKeys)
    ensures Overlay(Defaults, data)[RequiredKeys[i].0] == Defaults[RequiredKeys[i].0]
  {
    var key := RequiredKeys[i].0;
    CheckKeysExactly(data, RequiredKeys, WrongType(key, RequiredKeys[i].1));
    DefaultsValid();
    assert key in Defaults;
  }
}
