/**
 * The rule-list bookkeeping both editors (panel/panel.js and popup/popup.js)
 * perform on their `rules` array: automatic names, the normalisation of the
 * form before saving, and the append, edit and delete of records.
 */
module RuleBook {
  import opened Wrappers
  import opened Text
  import opened RuleModel
  import opened Scheduler

  /** JavaScript truthiness of an optional string. */
  predicate Truthy(s: Option<string>) {
    s.Some? && s.value != ""
  }

  /** `s || fallback` */
  function Or(s: Option<string>, fallback: string): (r: string)
    ensures Truthy(s) ==> r == s.value
    ensures !Truthy(s) ==> r == fallback
  {
    if Truthy(s) then s.value else fallback
  }

  // ---------------------------------------------------------------------
  // Automatic names

  const Unnamed: string := "(unnamed)"
  const UnnamedPrefix: string := "(unnamed "

  /**
   * The index a name carries when it matches `^\(unnamed(?: (\d+))?\)$`:
   * `(unnamed)` carries 1 and `(unnamed N)` carries `parseInt(N, 10)`;
   * any other name carries none.
   */
  function UnnamedIndex(name: string): Option<nat> {
    if name == Unnamed then Some(1)
    else if |name| > |UnnamedPrefix| + 1 && name[..|UnnamedPrefix|] == UnnamedPrefix && name[|name| - 1] == ')'
            && AllDigits(name[|UnnamedPrefix|..|name| - 1]) then
      Some(DecimalValue(name[|UnnamedPrefix|..|name| - 1]))
    else None
  }

  /** The largest index among the names of `rules`, 0 when none carries one. */
  function MaxUnnamed(rules: seq<Rule>): (max: nat)
    ensures forall i :: 0 <= i < |rules| && UnnamedIndex(rules[i].name).Some? ==> UnnamedIndex(rules[i].name).value <= max
    ensures max == 0 || exists i :: 0 <= i < |rules| && UnnamedIndex(rules[i].name) == Some(max)
    decreases |rules|
  {
    if rules == [] then 0
    else
      var prefix := rules[..|rules| - 1];
      var m := MaxUnnamed(prefix);
      var last := UnnamedIndex(rules[|rules| - 1].name);
      assert forall i :: 0 <= i < |prefix| ==> prefix[i] == rules[i];
      if last.Some? && last.value > m then last.value else m
  }

  /** `getNextUnnamedIndex()`: one more than every index in use, so at least 1. */
  function NextUnnamedIndex(rules: seq<Rule>): (n: nat)
    ensures n >= 1
    ensures forall i :: 0 <= i < |rules| && UnnamedIndex(rules[i].name).Some? ==> UnnamedIndex(rules[i].name).value < n
  {
    MaxUnnamed(rules) + 1
  }

  /** The automatic name with index `n`. */
  function NameWithIndex(n: nat): string {
    if n == 1 then Unnamed else UnnamedPrefix + NatToDecimal(n) + ")"
  }

  /** `getDefaultName()` */
  function DefaultName(rules: seq<Rule>): string {
    NameWithIndex(NextUnnamedIndex(rules))
  }

  /** The automatic name with index `n` carries index `n`. */
  lemma NameWithIndexCarries(n: nat)
    ensures UnnamedIndex(NameWithIndex(n)) == Some(n)
  {
    if n != 1 {
      var name := NameWithIndex(n);
      var digits := NatToDecimal(n);
      assert name[..|UnnamedPrefix|] == UnnamedPrefix;
      assert name[|UnnamedPrefix|..|name| - 1] == digits;
      assert |name| > |Unnamed|;
      DecimalRoundTrip(n);
    }
  }

  /** The default name never collides with the name of an existing rule. */
  lemma DefaultNameIsFresh(rules: seq<Rule>)
    ensures forall i :: 0 <= i < |rules| ==> rules[i].name != DefaultName(rules)
  {
    NameWithIndexCarries(NextUnnamedIndex(rules));
  }

  /** The plain `(unnamed)` is chosen exactly when no name carries a positive index. */
  lemma DefaultNameIsPlainWhenUnused(rules: seq<Rule>)
    ensures DefaultName(rules) == Unnamed <==>
      forall i :: 0 <= i < |rules| ==> UnnamedIndex(rules[i].name).None? || UnnamedIndex(rules[i].name) == Some(0)
  {
    NameWithIndexCarries(NextUnnamedIndex(rules));
    assert UnnamedIndex(Unnamed) == Some(1);
  }

  /** After a rule with the default name is added, the next default name is a different one. */
  lemma DefaultNameAdvances(rules: seq<Rule>, r: Rule)
    requires r.name == DefaultName(rules)
    ensures NextUnnamedIndex(rules + [r]) == NextUnnamedIndex(rules) + 1
    ensures DefaultName(rules + [r]) != DefaultName(rules)
  {
    var n := NextUnnamedIndex(rules);
    NameWithIndexCarries(n);
    NameWithIndexCarries(n + 1);
    assert (rules + [r])[..|rules|] == rules;
  }

  // ---------------------------------------------------------------------
  // The form and its normalisation

  /**
   * What the rule form holds when Save is pressed: the name field and its
   * placeholder, the matcher mode selected, the matcher, the text of the
   * delay field, the condition, and the script.
   */
  datatype Form = Form(name: string, placeholder: string, matcherMode: string, matcher: string,
                       delayText: string, condition: string, script: string)

  /** The data fields of a saved rule; the id is added separately. */
  datatype RuleData = RuleData(name: string, matcherMode: string, matcher: string, scriptContent: string,
                               delaySeconds: Option<real>, injectionCondition: Option<string>)

  /** The record `{ id, ...data }`. */
  function Stamp(id: string, d: RuleData): (r: Rule)
    ensures r.id == id && r.name == d.name && r.matcherMode == Some(d.matcherMode) && r.matcher == d.matcher
    ensures r.scriptContent == d.scriptContent && r.delaySeconds == d.delaySeconds
    ensures r.injectionCondition == d.injectionCondition
  {
    Rule(id, d.name, Some(d.matcherMode), d.matcher, d.scriptContent, d.delaySeconds, d.injectionCondition)
  }

  /**
   * The delay `saveFromForm` stores: an empty field is no delay, otherwise the
   * field is read by `parseFloat` (None standing for NaN) and kept only when
   * it is not negative.
   */
  function SavedDelay(text: string, parseFloat: string -> Option<real>): (d: Option<real>)
    ensures d.Some? ==> d.value >= 0.0 && text != "" && parseFloat(text) == d
    ensures d.None? <==> text == "" || parseFloat(text).None? || parseFloat(text).value < 0.0
  {
    if text == "" then None
    else match parseFloat(text)
      case None => None
      case Some(v) => if v >= 0.0 then Some(v) else None
  }

  /** The condition `saveFromForm` stores: the trimmed text, or none when it is blank. */
  function SavedCondition(text: string): (c: Option<string>)
    ensures c.None? <==> IsBlank(text)
    ensures c.Some? ==> c.value == Trim(text) && !IsBlank(c.value)
  {
    var t := Trim(text);
    if t == "" then None else Some(t)
  }

  /**
   * The data `saveFromForm` builds: the trimmed name, or else the
   * placeholder, or else the default name; the trimmed matcher; the delay
   * and condition as above; the mode and the script as given.
   */
  function Normalise(form: Form, defaultName: string, parseFloat: string -> Option<real>): (d: RuleData)
    ensures !IsBlank(form.name) ==> d.name == Trim(form.name)
    ensures IsBlank(form.name) && form.placeholder != "" ==> d.name == form.placeholder
    ensures IsBlank(form.name) && form.placeholder == "" ==> d.name == defaultName
    ensures d.matcher == Trim(form.matcher) && d.matcherMode == form.matcherMode && d.scriptContent == form.script
    ensures d.delaySeconds == SavedDelay(form.delayText, parseFloat)
    ensures d.injectionCondition == SavedCondition(form.condition)
  {
    var trimmed := Trim(form.name);
    var name := if trimmed != "" then trimmed else if form.placeholder != "" then form.placeholder else defaultName;
    RuleData(name, form.matcherMode, Trim(form.matcher), form.script,
             SavedDelay(form.delayText, parseFloat), SavedCondition(form.condition))
  }

  /** The background worker finds a condition on a saved rule exactly when the condition field was not blank. */
  lemma SavedConditionIsHonoured(id: string, form: Form, defaultName: string, parseFloat: string -> Option<real>)
    ensures HasCondition(Stamp(id, Normalise(form, defaultName, parseFloat))) <==> !IsBlank(form.condition)
  {
    var c := SavedCondition(form.condition);
    if c.Some? {
      TrimIdempotent(form.condition);
    }
  }

  /** Automatic names are already trimmed. */
  lemma NameWithIndexIsTrimmed(n: nat)
    ensures Trim(NameWithIndex(n)) == NameWithIndex(n)
  {
    var name := NameWithIndex(n);
    assert name[0] == '(' && name[|name| - 1] == ')';
    TrimOfTrimmed(name);
  }

  /** A record as `saveFromForm` leaves it: every field it normalises is in normal form. */
  predicate Normalised(r: Rule) {
    && r.name != "" && Trim(r.name) == r.name
    && Trim(r.matcher) == r.matcher
    && r.matcherMode.Some? && r.matcherMode.value != ""
    && (r.delaySeconds.Some? ==> r.delaySeconds.value >= 0.0)
    && (r.injectionCondition.Some? ==> r.injectionCondition.value != "" && Trim(r.injectionCondition.value) == r.injectionCondition.value)
  }

  /** Saving yields a normalised record whenever the mode is set and the placeholder is trimmed. */
  lemma SavedRuleIsNormalised(id: string, form: Form, rules: seq<Rule>, parseFloat: string -> Option<real>)
    requires form.matcherMode != ""
    requires Trim(form.placeholder) == form.placeholder
    ensures Normalised(Stamp(id, Normalise(form, DefaultName(rules), parseFloat)))
  {
    var d := Normalise(form, DefaultName(rules), parseFloat);
    if !IsBlank(form.name) {
      TrimIdempotent(form.name);
    } else if form.placeholder == "" {
      NameWithIndexIsTrimmed(NextUnnamedIndex(rules));
    }
    assert d.name != "" && Trim(d.name) == d.name;
    TrimIdempotent(form.matcher);
    if d.injectionCondition.Some? {
      TrimIdempotent(form.condition);
    }
  }

  /**
   * The form `openForm(rule.id)` fills in for an existing rule: the name as
   * stored, the mode or `wildcard`, the matcher, the delay written out by
   * `show` (JavaScript's number-to-string) or empty, the condition or empty,
   * and the script; the placeholder is left as it was.
   */
  function EditForm(rule: Rule, placeholder: string, show: real -> string): (f: Form)
    ensures f.name == rule.name && f.matcher == rule.matcher && f.script == rule.scriptContent
    ensures f.placeholder == placeholder
    ensures f.matcherMode == if rule.matcherMode.Some? && rule.matcherMode.value != "" then rule.matcherMode.value else "wildcard"
    ensures f.delayText == if rule.delaySeconds.Some? then show(rule.delaySeconds.value) else ""
    ensures f.condition == if rule.injectionCondition.Some? then rule.injectionCondition.value else ""
  {
    Form(rule.name, placeholder,
         if rule.matcherMode.Some? && rule.matcherMode.value != "" then rule.matcherMode.value else "wildcard",
         rule.matcher,
         if rule.delaySeconds.Some? then show(rule.delaySeconds.value) else "",
         rule.injectionCondition.GetOr(""),
         rule.scriptContent)
  }

  /**
   * Opening a normalised rule for editing and saving it untouched writes the
   * same record back, provided the delay survives being written out and
   * read back by `parseFloat`.
   */
  lemma ResaveIsIdentity(rule: Rule, placeholder: string, defaultName: string,
                         show: real -> string, parseFloat: string -> Option<real>)
    requires Normalised(rule)
    requires rule.delaySeconds.Some? ==>
      show(rule.delaySeconds.value) != "" && parseFloat(show(rule.delaySeconds.value)) == rule.delaySeconds
    ensures Stamp(rule.id, Normalise(EditForm(rule, placeholder, show), defaultName, parseFloat)) == rule
  {
    if rule.injectionCondition.Some? {
      assert !IsBlank(rule.injectionCondition.value) by {
        assert Trim(rule.injectionCondition.value) != [];
      }
    }
    assert !IsBlank(rule.name) by {
      assert Trim(rule.name) != [];
    }
  }

  // ---------------------------------------------------------------------
  // Append, edit and delete

  /** `rules.push({ id, ...data })` */
  function Append(rules: seq<Rule>, id: string, d: RuleData): (r: seq<Rule>)
    ensures |r| == |rules| + 1 && r[..|rules|] == rules && r[|rules|] == Stamp(id, d)
  {
    rules + [Stamp(id, d)]
  }

  /** `rules.find((r) => r.id === id)`, as the index of the first such rule. */
  function FindIndex(rules: seq<Rule>, id: string): (k: Option<nat>)
    ensures k.Some? ==>
      k.value < |rules| && rules[k.value].id == id && forall j :: 0 <= j < k.value ==> rules[j].id != id
    ensures k.None? <==> forall j :: 0 <= j < |rules| ==> rules[j].id != id
  {
    if rules == [] then None
    else if rules[0].id == id then Some(0)
    else match FindIndex(rules[1..], id)
      case None => None
      case Some(k) => Some(k + 1)
  }

  /** `Object.assign(rule, data)` on the first rule with that id, if any. */
  function ApplyEdit(rules: seq<Rule>, id: string, d: RuleData): (r: seq<Rule>)
    ensures |r| == |rules|
    ensures forall i :: 0 <= i < |r| ==> r[i].id == rules[i].id
  {
    match FindIndex(rules, id)
    case None => rules
    case Some(k) => rules[k := Stamp(rules[k].id, d)]
  }

  /**
   * Editing overwrites every data field of the first rule with the id,
   * keeping its id and its position; every other rule, a later one with the
   * same id included, is untouched; with no such rule nothing changes.
   */
  lemma ApplyEditSpec(rules: seq<Rule>, id: string, d: RuleData)
    ensures var r := ApplyEdit(rules, id, d);
      && |r| == |rules|
      && ((forall j :: 0 <= j < |rules| ==> rules[j].id != id) ==> r == rules)
      && forall k :: 0 <= k < |rules| && rules[k].id == id && (forall j :: 0 <= j < k ==> rules[j].id != id) ==>
           && r[k] == Stamp(id, d)
           && forall j :: 0 <= j < |rules| && j != k ==> r[j] == rules[j]
  {
    var f := FindIndex(rules, id);
    if f.Some? {
      forall k | 0 <= k < |rules| && rules[k].id == id && (forall j :: 0 <= j < k ==> rules[j].id != id)
        ensures k == f.value
      {
      }
    }
  }

  /** `rules.filter((r) => r.id !== id)` */
  function Remove(rules: seq<Rule>, id: string): (r: seq<Rule>)
    ensures |r| <= |rules|
    ensures forall x :: x in r <==> x in rules && x.id != id
    decreases |rules|
  {
    if rules == [] then []
    else
      var prefix := rules[..|rules| - 1];
      var last := rules[|rules| - 1];
      assert rules == prefix + [last];
      Remove(prefix, id) + (if last.id != id then [last] else [])
  }

  /** Deleting from a list made of two parts deletes from each part, so the survivors keep their order. */
  lemma {:induction false} RemoveAppend(a: seq<Rule>, b: seq<Rule>, id: string)
    ensures Remove(a + b, id) == Remove(a, id) + Remove(b, id)
    decreases |b|
  {
    if b == [] {
      assert a + b == a;
    } else {
      var b' := b[..|b| - 1];
      assert (a + b)[..|a + b| - 1] == a + b';
      assert (a + b)[|a + b| - 1] == b[|b| - 1];
      RemoveAppend(a, b', id);
    }
  }

  /** After a delete no rule has that id, and a list without the id is unchanged. */
  lemma {:induction false} RemoveSpec(rules: seq<Rule>, id: string)
    ensures forall j :: 0 <= j < |Remove(rules, id)| ==> Remove(rules, id)[j].id != id
    ensures (forall j :: 0 <= j < |rules| ==> rules[j].id != id) ==> Remove(rules, id) == rules
    decreases |rules|
  {
    if rules != [] {
      var prefix := rules[..|rules| - 1];
      assert rules == prefix + [rules[|rules| - 1]];
      RemoveSpec(prefix, id);
      assert forall j :: 0 <= j < |Remove(rules, id)| ==> Remove(rules, id)[j] in Remove(rules, id);
    }
  }

  /** Every rule without the id is kept as many times as it occurred; none with it is kept. */
  lemma {:induction false} RemoveCounts(rules: seq<Rule>, id: string, x: Rule)
    ensures multiset(Remove(rules, id))[x] == if x.id == id then 0 else multiset(rules)[x]
    decreases |rules|
  {
    if rules != [] {
      var prefix := rules[..|rules| - 1];
      assert rules == prefix + [rules[|rules| - 1]];
      RemoveCounts(prefix, id, x);
    }
  }

  /** Deleting twice is deleting once. */
  lemma RemoveIdempotent(rules: seq<Rule>, id: string)
    ensures Remove(Remove(rules, id), id) == Remove(rules, id)
  {
    RemoveSpec(rules, id);
    RemoveSpec(Remove(rules, id), id);
  }
}
