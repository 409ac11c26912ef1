/**
  The declarative entity rules of the repository schema and their
  interpreter: field normalization (`normalize_entity`) and regex constraint
  checking (`validate_entity`).

  Rule names are kept as the raw strings of the schema (`"trim"`, `"lower"`,
  `"replace:<from>:<to>"`) so that their parsing is part of the model. The
  regular-expression engine is a parameter: `matches(pattern, value)` stands
  for `re.match(pattern, value)` succeeding, an anchored-at-start match.
*/
module Schema {
  import opened Wrappers
  import opened Text

  /** One declared field: `optional` and its normalizer pipeline. */
  datatype FieldRule = FieldRule(name: string, optional: bool, normalize: seq<string>)

  /** One declared constraint. `regex` is `None` when the constraint has no
      "regex" key. */
  datatype Constraint = Constraint(field: string, regex: Option<string>, whenPresent: bool)

  /** The schema's entry for one entity type; fields keep declaration order. */
  datatype EntityConfig = EntityConfig(fields: seq<FieldRule>, constraints: seq<Constraint>)

  /** `matches(pattern, value)`: `re.match(pattern, value)` is not `None`. */
  type Matcher = (string, string) -> bool

  /** A string-valued dictionary such as the raw coordinate or the
      normalized entity. */
  type Fields = map<string, string>

  /** Python's `d.get(k)`. */
  function Lookup(d: Fields, k: string): (v: Option<string>)
    ensures v.Some? <==> k in d
    ensures v.Some? ==> v.value == d[k]
  {
    if k in d then Some(d[k]) else None
  }

  /** The names of a declaration list are pairwise distinct, as the keys of
      a JSON object are. */
  predicate DistinctNames(fields: seq<FieldRule>) {
    forall i, j :: 0 <= i < j < |fields| ==> fields[i].name != fields[j].name
  }

  // ---------------------------------------------------------------------------
  // Normalizers
  // ---------------------------------------------------------------------------

  const ReplacePrefix: string := "replace:"

  /** A rule name the normalizer loop acts on; any other name is skipped. */
  predicate KnownRule(rule: string) {
    rule == "trim" || rule == "lower" || StartsWith(rule, ReplacePrefix)
  }

  /** One normalizer applied to a value. Unknown rule names, and `replace:`
      rules that do not split on `:` into exactly three parts, leave the
      value unchanged. */
  function ApplyRule(rule: string, v: string): (r: string)
    ensures !KnownRule(rule) ==> r == v
    ensures rule == "lower" ==> |r| == |v|
    ensures rule == "trim" ==> |r| <= |v|
  {
    if rule == "trim" then Trim(v)
    else if rule == "lower" then Lower(v)
    else if StartsWith(rule, ReplacePrefix) then
      var parts := Split(rule, ':');
      if |parts| == 3 then Replace(v, parts[1], parts[2]) else v
    else v
  }

  /** The normalizer list of a field, applied left to right. */
  function Pipeline(rules: seq<string>, v: string): (r: string)
    ensures (forall i :: 0 <= i < |rules| ==> !KnownRule(rules[i])) ==> r == v
    ensures (forall i :: 0 <= i < |rules| ==> rules[i] == "lower") ==> |r| == |v|
    decreases |rules|
  {
    if rules == [] then v else Pipeline(rules[1..], ApplyRule(rules[0], v))
  }

  /** Running two lists one after the other is running their concatenation:
      normalizers take effect in declared order. */
  lemma {:induction false} PipelineAppend(first: seq<string>, second: seq<string>, v: string)
    ensures Pipeline(first + second, v) == Pipeline(second, Pipeline(first, v))
    decreases |first|
  {
    if first != [] {
      var both := first + second;
      assert both[0] == first[0];
      assert both[1..] == first[1..] + second;
      PipelineAppend(first[1..], second, ApplyRule(first[0], v));
      assert Pipeline(both, v) == Pipeline(both[1..], ApplyRule(both[0], v));
    } else {
      assert first + second == second;
    }
  }

  /** A well-formed `replace:<from>:<to>` rule substitutes `to` for every
      occurrence of `from`. */
  lemma ReplaceRuleApplies(from: string, to: string, v: string)
    requires ':' !in from && ':' !in to
    ensures ApplyRule(ReplacePrefix + from + ":" + to, v) == Replace(v, from, to)
  {
    ReplaceRuleSplits(from, to);
  }

  lemma ReplaceRuleSplits(from: string, to: string)
    requires ':' !in from && ':' !in to
    ensures Split(ReplacePrefix + from + ":" + to, ':') == ["replace", from, to]
    ensures StartsWith(ReplacePrefix + from + ":" + to, ReplacePrefix)
    ensures |ReplacePrefix + from + ":" + to| > |"lower"| > |"trim"|
  {
    var parts := ["replace", from, to];
    var tail := from + [':'] + to;
    assert Join(parts[2..], ':') == to;
    assert Join(parts[1..], ':') == tail;
    assert ReplacePrefix == "replace" + [':'];
    assert Join(parts, ':') == ReplacePrefix + tail;
    ConcatAssoc(ReplacePrefix, from, ":", to);
    SplitJoin(parts, ':');
  }

  lemma ConcatAssoc(a: string, b: string, c: string, d: string)
    ensures a + b + c + d == a + (b + c + d)
    ensures a <= a + b + c + d
  {
  }


  /** A `replace:` rule whose text does not have exactly two colons is
      ignored. */
  lemma ReplaceRuleIgnored(rule: string, v: string)
    requires StartsWith(rule, ReplacePrefix)
    requires multiset(rule)[':'] != 2
    ensures ApplyRule(rule, v) == v
  {
    assert rule[..|ReplacePrefix|] == ReplacePrefix;
    assert rule != "trim" && rule != "lower" by {
      assert rule[0] == 'r';
    }
    SplitCount(rule, ':');
  }

  /** Normalization with a `replace:` rule need not be idempotent:
      `replace:a:aa` doubles every `a` each time it runs. */
  lemma ReplaceRuleNotIdempotent()
    ensures var rules := [ReplacePrefix + "a" + ":" + "aa"];
            Pipeline(rules, "a") == "aa" && Pipeline(rules, Pipeline(rules, "a")) == "aaaa"
  {
    var rules := [ReplacePrefix + "a" + ":" + "aa"];
    ReplaceRuleApplies("a", "aa", "a");
    ReplaceRuleApplies("a", "aa", "aa");
    assert Replace("a", "a", "aa") == "aa" by {
      assert "a"[1..] == "";
    }
    assert Replace("aa", "a", "aa") == "aaaa" by {
      assert "aa"[1..] == "a";
      assert Replace("a", "a", "aa") == "aa" by {
        assert "a"[1..] == "";
      }
    }
    assert Pipeline(rules, "a") == "aa";
    assert Pipeline(rules, "aa") == "aaaa";
  }

  /** The pipelines for which the normalizer is a closure operator: only
      `trim` and `lower`. */
  predicate CaseRulesOnly(rules: seq<string>) {
    forall i :: 0 <= i < |rules| ==> rules[i] == "trim" || rules[i] == "lower"
  }

  /** What a `trim`/`lower` pipeline amounts to, whatever the order and
      repetition of its rules: lower-case if it lower-cases, then strip if it
      strips. */
  function CaseCanonical(rules: seq<string>, v: string): string {
    var lowered := if "lower" in rules then Lower(v) else v;
    if "trim" in rules then Trim(lowered) else lowered
  }

  lemma {:induction false} PipelineIsCanonical(rules: seq<string>, v: string)
    requires CaseRulesOnly(rules)
    ensures Pipeline(rules, v) == CaseCanonical(rules, v)
    decreases |rules|
  {
    if rules != [] {
      var rest := rules[1..];
      assert CaseRulesOnly(rest);
      assert rules == [rules[0]] + rest;
      PipelineIsCanonical(rest, ApplyRule(rules[0], v));
      if rules[0] == "trim" {
        assert "lower" in rules <==> "lower" in rest;
        TrimLowerCommute(v);
        TrimIdempotent(v);
        TrimIdempotent(Lower(v));
      } else {
        assert "trim" in rules <==> "trim" in rest;
        LowerIdempotent(v);
      }
    }
  }

  /** For `trim`/`lower` pipelines, normalizing twice equals normalizing
      once. */
  lemma PipelineIdempotent(rules: seq<string>, v: string)
    requires CaseRulesOnly(rules)
    ensures Pipeline(rules, Pipeline(rules, v)) == Pipeline(rules, v)
  {
    PipelineIsCanonical(rules, v);
    var once := CaseCanonical(rules, v);
    PipelineIsCanonical(rules, once);
    var lowered := if "lower" in rules then Lower(v) else v;
    if "lower" in rules {
      LowerIdempotent(v);
      if "trim" in rules {
        TrimLowerCommute(lowered);
        TrimIdempotent(lowered);
      }
    } else if "trim" in rules {
      TrimIdempotent(v);
    }
  }

  /** A `trim`/`lower` pipeline leaves the empty string empty. */
  lemma PipelineOfEmpty(rules: seq<string>)
    requires CaseRulesOnly(rules)
    ensures Pipeline(rules, "") == ""
  {
    PipelineIsCanonical(rules, "");
    LowerEmpty();
    assert TrimLeft("") == "";
  }

  // ---------------------------------------------------------------------------
  // normalize_entity
  // ---------------------------------------------------------------------------

  /** The normalized value one declaration contributes: the pipeline over the
      given value; `""` without running the pipeline when a required field is
      missing; nothing when an optional field is missing. */
  function NormalizeField(f: FieldRule, data: Fields): Option<string> {
    if f.name !in data then (if f.optional then None else Some(""))
    else Some(Pipeline(f.normalize, data[f.name]))
  }

  /** The names that end up in the normalized entity: declared and either
      given or required. */
  function Contributing(fields: seq<FieldRule>, data: Fields): set<string> {
    set i | 0 <= i < |fields| && (fields[i].name in data || !fields[i].optional) :: fields[i].name
  }

  /** `normalize_entity`: the declared fields in order, each normalized;
      undeclared input keys are dropped. */
  function Normalize(fields: seq<FieldRule>, data: Fields): (r: Fields)
    ensures r.Keys == Contributing(fields, data)
    decreases |fields|
  {
    if |fields| == 0 then map[]
    else
      var init := fields[..|fields| - 1];
      var f := fields[|fields| - 1];
      var rest := Normalize(init, data);
      assert fields == init + [f];
      ContributingSnoc(init, f, data);
      match NormalizeField(f, data)
      case None => rest
      case Some(v) => rest[f.name := v]
  }

  lemma ContributingSnoc(init: seq<FieldRule>, f: FieldRule, data: Fields)
    ensures Contributing(init + [f], data)
         == Contributing(init, data) + (if f.name in data || !f.optional then {f.name} else {})
  {
    var all := init + [f];
    forall n | n in Contributing(all, data)
      ensures n in Contributing(init, data) || (n == f.name && (f.name in data || !f.optional))
    {
      var i :| 0 <= i < |all| && (all[i].name in data || !all[i].optional) && all[i].name == n;
      if i < |init| {
        assert all[i] == init[i];
      }
    }
    forall n | n in Contributing(init, data)
      ensures n in Contributing(all, data)
    {
      var i :| 0 <= i < |init| && (init[i].name in data || !init[i].optional) && init[i].name == n;
      assert all[i] == init[i];
    }
    if f.name in data || !f.optional {
      assert all[|init|] == f;
    }
  }

  /** With distinct field names, every declared field holds exactly what its
      own declaration contributes. */
  lemma {:induction false} NormalizeValues(fields: seq<FieldRule>, data: Fields, i: nat)
    requires DistinctNames(fields)
    requires i < |fields|
    ensures Lookup(Normalize(fields, data), fields[i].name) == NormalizeField(fields[i], data)
    decreases |fields|
  {
    var init := fields[..|fields| - 1];
    var f := fields[|fields| - 1];
    if i < |fields| - 1 {
      assert init[i] == fields[i];
      assert f.name != fields[i].name;
      NormalizeValues(init, data, i);
    } else {
      assert forall j :: 0 <= j < |init| ==> init[j].name != f.name;
    }
  }

  /** With distinct names and `trim`/`lower` pipelines only, normalizing a
      normalized entity changes nothing. */
  lemma NormalizeIdempotent(fields: seq<FieldRule>, data: Fields)
    requires DistinctNames(fields)
    requires forall i :: 0 <= i < |fields| ==> CaseRulesOnly(fields[i].normalize)
    ensures Normalize(fields, Normalize(fields, data)) == Normalize(fields, data)
  {
    var once := Normalize(fields, data);
    var twice := Normalize(fields, once);
    forall n | n in once
      ensures n in twice && twice[n] == once[n]
    {
      NormalizeNameIdempotent(fields, data, n);
    }
    forall n | n in twice
      ensures n in once
    {
      NormalizeNameIdempotent(fields, data, n);
    }
    SameEntries(once, twice);
  }

  lemma SameEntries(a: Fields, b: Fields)
    requires forall n :: n in a ==> n in b && b[n] == a[n]
    requires forall n :: n in b ==> n in a
    ensures a == b
  {
  }

  /** Any name keeps its value, or its absence, on normalizing again. */
  lemma NormalizeNameIdempotent(fields: seq<FieldRule>, data: Fields, n: string)
    requires DistinctNames(fields)
    requires forall i :: 0 <= i < |fields| ==> CaseRulesOnly(fields[i].normalize)
    ensures var once := Normalize(fields, data);
            Lookup(Normalize(fields, once), n) == Lookup(once, n)
  {
    var once := Normalize(fields, data);
    var twice := Normalize(fields, once);
    if n in once {
      var i :| 0 <= i < |fields| && (fields[i].name in data || !fields[i].optional) && fields[i].name == n;
      NormalizeFieldIdempotent(fields, data, i);
    }
  }

  /** One declared field of a normalized entity survives normalizing again. */
  lemma NormalizeFieldIdempotent(fields: seq<FieldRule>, data: Fields, i: nat)
    requires DistinctNames(fields)
    requires forall i :: 0 <= i < |fields| ==> CaseRulesOnly(fields[i].normalize)
    requires i < |fields|
    ensures var once := Normalize(fields, data);
            Lookup(Normalize(fields, once), fields[i].name) == Lookup(once, fields[i].name)
  {
    var f := fields[i];
    var once := Normalize(fields, data);
    NormalizeValues(fields, data, i);
    NormalizeValues(fields, once, i);
    if f.name in data {
      PipelineIdempotent(f.normalize, data[f.name]);
    } else if !f.optional {
      PipelineOfEmpty(f.normalize);
    }
  }

  // ---------------------------------------------------------------------------
  // validate_entity
  // ---------------------------------------------------------------------------

  /** Python truthiness of `entity_data.get(field)` for string values. */
  predicate Truthy(v: Option<string>) {
    v.Some? && v.value != ""
  }

  /** One constraint check as the loop body writes it, `when_present` skip
      included. */
  predicate Passes(c: Constraint, entity: Fields, matches: Matcher) {
    var value := Lookup(entity, c.field);
    if c.whenPresent && !Truthy(value) then true
    else if Truthy(value) && c.regex.Some? then matches(c.regex.value, value.value)
    else true
  }

  /** When a constraint rejects an entity: the field holds a non-empty value
      that its regex does not match at the start. `when_present` plays no
      part. */
  predicate Rejects(c: Constraint, entity: Fields, matches: Matcher) {
    && c.field in entity
    && entity[c.field] != ""
    && c.regex.Some?
    && !matches(c.regex.value, entity[c.field])
  }

  /** The loop body's check and the independent rejection condition agree:
      a constraint passes exactly when it does not reject. */
  lemma PassesIffNotRejects(c: Constraint, entity: Fields, matches: Matcher)
    ensures Passes(c, entity, matches) <==> !Rejects(c, entity, matches)
  {
  }

  /** `validate_entity`: the index of the first constraint that raises
      `VALIDATION_ERROR`, or `None` when the entity is accepted. */
  function FirstViolation(cs: seq<Constraint>, entity: Fields, matches: Matcher): (r: Option<nat>)
    ensures r.None? <==> forall i :: 0 <= i < |cs| ==> !Rejects(cs[i], entity, matches)
    ensures r.Some? ==> r.value < |cs| && Rejects(cs[r.value], entity, matches)
    ensures r.Some? ==> forall j :: 0 <= j < r.value ==> !Rejects(cs[j], entity, matches)
    decreases |cs|
  {
    if |cs| == 0 then None
    else if !Passes(cs[0], entity, matches) then Some(0)
    else match FirstViolation(cs[1..], entity, matches)
      case None => None
      case Some(i) => Some(i + 1)
  }

  /** The `when_present` flag of a constraint never changes the outcome of
      validation: a constraint list and the same list with every flag
      chosen afresh reject the same entities at the same constraint. */
  lemma WhenPresentIrrelevant(cs: seq<Constraint>, flags: seq<bool>, entity: Fields, matches: Matcher)
    requires |flags| == |cs|
    ensures FirstViolation(cs, entity, matches)
         == FirstViolation(seq(|cs|, i requires 0 <= i < |cs| => cs[i].(whenPresent := flags[i])), entity, matches)
  {
    var cs' := seq(|cs|, i requires 0 <= i < |cs| => cs[i].(whenPresent := flags[i]));
    assert forall i :: 0 <= i < |cs| ==> (Rejects(cs[i], entity, matches) <==> Rejects(cs'[i], entity, matches));
  }
}
