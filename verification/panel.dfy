/**
 * The side-panel editor, panel/panel.js: its `rules` array and `editingId`,
 * the operations that change them, and the field mapping of a manifest
 * import.
 */
module Panel {
  import opened Wrappers
  import opened Text
  import opened RuleModel
  import opened RuleBook

  // ---------------------------------------------------------------------
  // Manifest import (`fetchManifestFormData`)

  /**
   * The manifest's `js` value: a path, or a JSON value that is not a string
   * (a number, a boolean, an array, an object), known only by whether it is
   * truthy.
   */
  datatype ScriptField = Path(path: string) | NotText(truthy: bool)

  /**
   * The fields of a manifest a user script is published with. A field is
   * None when the JSON value is missing or null; other values than `js` are
   * taken as their text.
   */
  datatype Manifest = Manifest(name: Option<string>, matches: Option<string>, matcherMode: Option<string>,
                               js: Option<ScriptField>, delaySeconds: Option<string>, injectionCondition: Option<string>)

  /** `if (jsFile)`: the manifest names a script. */
  predicate NamesScript(js: Option<ScriptField>) {
    js.Some? && match js.value
      case Path(p) => p != ""
      case NotText(t) => t
  }

  /** The outcome of a `fetch` and the read of its body. */
  datatype Fetched<T> = FetchFailed | NotOk(status: int) | Fetched(value: T)

  /** Why an import stops; `Failed` is any other exception on the way. */
  datatype ImportError = EmptyUrl | ManifestNotFound(status: int) | ScriptNotFound(js: string) | Failed

  /** The form values an import produces; every field is text, as the form holds it. */
  datatype FormData = FormData(name: string, matcherMode: string, matcher: string, scriptContent: string,
                               delaySeconds: string, injectionCondition: string)

  /** The position of the last `/` in `s`, if any. */
  function LastSlash(s: string): (k: Option<nat>)
    ensures k.Some? ==> k.value < |s| && s[k.value] == '/' && '/' !in s[k.value + 1..]
    ensures k.None? <==> '/' !in s
    decreases |s|
  {
    if s == [] then None
    else if s[|s| - 1] == '/' then Some(|s| - 1)
    else
      var k := LastSlash(s[..|s| - 1]);
      assert s == s[..|s| - 1] + [s[|s| - 1]];
      if k.Some? then
        assert s[k.value + 1..] == s[..|s| - 1][k.value + 1..] + [s[|s| - 1]];
        k
      else k
  }

  /**
   * `url.replace(/\/[^/]*$/, '/')`: the address cut just after its last `/`,
   * or the address itself when it has none.
   */
  function BaseUrl(url: string): (base: string)
    ensures '/' in url ==> base != [] && base[|base| - 1] == '/' && StartsWith(url, base) && '/' !in url[|base|..]
    ensures '/' !in url ==> base == url
  {
    match LastSlash(url)
    case None => url
    case Some(k) => url[..k + 1]
  }

  /** `jsFile.startsWith('http') ? jsFile : base + jsFile` */
  function ScriptUrl(base: string, js: string): string {
    if StartsWith(js, "http") then js else base + js
  }

  /**
   * `fetchManifestFormData(manifestUrl)`, with the two fetches given as
   * functions from address to outcome.
   */
  function FetchManifestFormData(manifestUrl: string, getManifest: string -> Fetched<Manifest>,
                                 getScript: string -> Fetched<string>): (r: Result<FormData, ImportError>)
    ensures r == Err(EmptyUrl) <==> IsBlank(manifestUrl)
    ensures !IsBlank(manifestUrl) && getManifest(Trim(manifestUrl)).NotOk? ==>
      r == Err(ManifestNotFound(getManifest(Trim(manifestUrl)).status))
    ensures r.Ok? ==> getManifest(Trim(manifestUrl)).Fetched?
  {
    var url := Trim(manifestUrl);
    if url == "" then Err(EmptyUrl)
    else
      match getManifest(url)
      case FetchFailed => Err(Failed)
      case NotOk(status) => Err(ManifestNotFound(status))
      case Fetched(manifest) =>
        var base := BaseUrl(url);
        var matcher := Or(manifest.matches, "*");
        var script: Result<string, ImportError> :=
          if !NamesScript(manifest.js) then Ok("")
          else
            match manifest.js.value
            case NotText(_) => Err(Failed) // `jsFile.startsWith` is not a function
            case Path(js) =>
              match getScript(ScriptUrl(base, js))
              case FetchFailed => Err(Failed)
              case NotOk(_) => Err(ScriptNotFound(js))
              case Fetched(text) => Ok(text);
        match script
        case Err(e) => Err(e)
        case Ok(content) =>
          Ok(FormData(Or(manifest.name, "Unnamed"),
                      if manifest.matcherMode == Some("regex") then "regex" else "wildcard",
                      matcher, content, Or(manifest.delaySeconds, ""), Or(manifest.injectionCondition, "")))
  }

  /**
   * What a successful import fills in: the manifest's name or `Unnamed`;
   * the mode `regex` exactly when the manifest says `regex`, `wildcard`
   * otherwise; the manifest's matches or the star; the delay and condition
   * as text or empty; and the script fetched from the resolved address, or
   * no script when the manifest names none.
   */
  lemma ImportedFields(manifestUrl: string, getManifest: string -> Fetched<Manifest>, getScript: string -> Fetched<string>)
    ensures var r := FetchManifestFormData(manifestUrl, getManifest, getScript);
      r.Ok? ==>
        var m := getManifest(Trim(manifestUrl)).value;
        var d := r.value;
        && d.name == Or(m.name, "Unnamed") && d.name != ""
        && (d.matcherMode == "regex" <==> m.matcherMode == Some("regex"))
        && (d.matcherMode == "regex" || d.matcherMode == "wildcard")
        && d.matcher == Or(m.matches, "*") && d.matcher != ""
        && d.delaySeconds == Or(m.delaySeconds, "")
        && d.injectionCondition == Or(m.injectionCondition, "")
        && (!NamesScript(m.js) ==> d.scriptContent == "")
        && (NamesScript(m.js) ==>
              m.js.value.Path? && getScript(ScriptUrl(BaseUrl(Trim(manifestUrl)), m.js.value.path)) == Fetched(d.scriptContent))
  {
  }

  /**
   * A script path beginning with `http` is fetched as it stands; any other
   * is resolved against the directory of the manifest's address.
   */
  lemma ScriptUrlResolution(manifestUrl: string, js: string)
    requires '/' in manifestUrl
    ensures StartsWith(js, "http") ==> ScriptUrl(BaseUrl(manifestUrl), js) == js
    ensures !StartsWith(js, "http") ==>
      var base := BaseUrl(manifestUrl);
      && ScriptUrl(base, js) == base + js
      && StartsWith(manifestUrl, base) && base[|base| - 1] == '/' && '/' !in manifestUrl[|base|..]
  {
  }

  /** A manifest whose script cannot be fetched imports nothing. */
  lemma MissingScriptStopsImport(manifestUrl: string, getManifest: string -> Fetched<Manifest>,
                                 getScript: string -> Fetched<string>)
    requires !IsBlank(manifestUrl) && getManifest(Trim(manifestUrl)).Fetched?
    requires var m := getManifest(Trim(manifestUrl)).value;
      m.js.Some? && m.js.value.Path? && m.js.value.path != ""
      && getScript(ScriptUrl(BaseUrl(Trim(manifestUrl)), m.js.value.path)).NotOk?
    ensures FetchManifestFormData(manifestUrl, getManifest, getScript)
      == Err(ScriptNotFound(getManifest(Trim(manifestUrl)).value.js.value.path))
  {
  }

  /** A truthy `js` that is not a string fails the import: it has no `startsWith`. */
  lemma NonTextScriptFails(manifestUrl: string, getManifest: string -> Fetched<Manifest>,
                           getScript: string -> Fetched<string>)
    requires !IsBlank(manifestUrl) && getManifest(Trim(manifestUrl)).Fetched?
    requires getManifest(Trim(manifestUrl)).value.js == Some(NotText(true))
    ensures FetchManifestFormData(manifestUrl, getManifest, getScript) == Err(Failed)
  {
  }

  /**
   * The form `openForm(null, { importData })` shows: the imported values,
   * with `wildcard` for an empty mode and the default name as placeholder.
   */
  function ImportedForm(data: FormData, placeholder: string): Form {
    Form(data.name, placeholder, if data.matcherMode != "" then data.matcherMode else "wildcard",
         data.matcher, data.delaySeconds, data.injectionCondition, data.scriptContent)
  }

  /**
   * Importing a manifest and saving the form untouched stores the trimmed
   * manifest name (`Unnamed` when it has none, the default name when it is
   * blank), the mode `regex` exactly when the manifest says so and
   * `wildcard` otherwise, the trimmed matches (the star when there are
   * none), the fetched script (none when no script is named), and the
   * manifest's condition as a save keeps it.
   */
  lemma ImportThenSave(manifestUrl: string, getManifest: string -> Fetched<Manifest>,
                       getScript: string -> Fetched<string>, rules: seq<Rule>, parseFloat: string -> Option<real>)
    ensures var r := FetchManifestFormData(manifestUrl, getManifest, getScript);
      r.Ok? ==>
        var m := getManifest(Trim(manifestUrl)).value;
        var name := Or(m.name, "Unnamed");
        var s := Normalise(ImportedForm(r.value, RuleBook.DefaultName(rules)), RuleBook.DefaultName(rules), parseFloat);
        && s.name != ""
        && (!IsBlank(name) ==> s.name == Trim(name))
        && (IsBlank(name) ==> s.name == RuleBook.DefaultName(rules))
        && (s.matcherMode == "regex" <==> m.matcherMode == Some("regex"))
        && (s.matcherMode == "regex" || s.matcherMode == "wildcard")
        && s.matcher == Trim(Or(m.matches, "*"))
        && (!Truthy(m.matches) ==> s.matcher == "*")
        && (!NamesScript(m.js) ==> s.scriptContent == "")
        && (NamesScript(m.js) ==> m.js.value.Path? && getScript(ScriptUrl(BaseUrl(Trim(manifestUrl)), m.js.value.path)) == Fetched(s.scriptContent))
        && s.injectionCondition == SavedCondition(Or(m.injectionCondition, ""))
  {
    ImportedFields(manifestUrl, getManifest, getScript);
    TrimOfTrimmed("*");
    assert RuleBook.DefaultName(rules) != "";
  }

  // ---------------------------------------------------------------------
  // The editor's state

  /** The panel's module-level `rules` and `editingId`. */
  class PanelEditor {
    var rules: seq<Rule>
    var editingId: Option<string>

    constructor ()
      ensures rules == [] && editingId == None
    {
      rules := [];
      editingId := None;
    }

    /** Whether a save edits (`editingId` is a non-empty id) rather than adds. */
    predicate Editing()
      reads this
    {
      Truthy(editingId)
    }

    /** `getNextUnnamedIndex()` */
    method NextUnnamedIndex() returns (n: nat)
      ensures n == RuleBook.NextUnnamedIndex(rules)
      ensures n >= 1 && forall i :: 0 <= i < |rules| && UnnamedIndex(rules[i].name).Some? ==> UnnamedIndex(rules[i].name).value < n
    {
      var max := 0;
      var i := 0;
      while i < |rules|
        invariant 0 <= i <= |rules|
        invariant max == MaxUnnamed(rules[..i])
      {
        assert rules[..i + 1][..i] == rules[..i];
        var m := UnnamedIndex(rules[i].name);
        if m.Some? && m.value > max {
          max := m.value;
        }
        i := i + 1;
      }
      assert rules[..i] == rules;
      n := max + 1;
    }

    /** `getDefaultName()`: a name no rule has yet. */
    method DefaultName() returns (name: string)
      ensures name == RuleBook.DefaultName(rules)
      ensures forall i :: 0 <= i < |rules| ==> rules[i].name != name
    {
      var n := NextUnnamedIndex();
      name := if n == 1 then Unnamed else UnnamedPrefix + NatToDecimal(n) + ")";
      DefaultNameIsFresh(rules);
    }

    /**
     * `openForm(ruleId, options)`: records the rule being edited and returns
     * the form it shows. Editing an unknown id leaves the form as it was
     * (None). A new form carries the default name as placeholder and either
     * the imported values or the page address as matcher. `placeholder` is
     * the placeholder the form had before; `show` writes a number as text.
     */
    method OpenForm(ruleId: Option<string>, placeholder: string, prefillUrl: Option<string>,
                    importData: Option<FormData>, show: real -> string)
      returns (form: Option<Form>)
      modifies this
      ensures editingId == ruleId && rules == old(rules)
      ensures Truthy(ruleId) ==>
        match FindIndex(rules, ruleId.value)
        case None => form.None?
        case Some(k) => form == Some(EditForm(rules[k], placeholder, show))
      ensures !Truthy(ruleId) && importData.Some? ==>
        form == Some(ImportedForm(importData.value, RuleBook.DefaultName(rules)))
      ensures !Truthy(ruleId) && importData.None? ==>
        form == Some(Form("", RuleBook.DefaultName(rules), "wildcard", Or(prefillUrl, ""), "", "", ""))
    {
      editingId := ruleId;
      if Truthy(ruleId) {
        var k := FindIndex(rules, ruleId.value);
        if k.None? {
          return None;
        }
        form := Some(EditForm(rules[k.value], placeholder, show));
      } else {
        var defaultName := DefaultName();
        if importData.Some? {
          form := Some(ImportedForm(importData.value, defaultName));
        } else {
          form := Some(Form("", defaultName, "wildcard", Or(prefillUrl, ""), "", "", ""));
        }
      }
    }

    /**
     * `saveFromForm()`: normalises the form; then, when editing, overwrites
     * the rule with `editingId` (if it still exists), otherwise appends a
     * rule with the generated id `freshId`; and closes the form.
     */
    method SaveFromForm(form: Form, freshId: string, parseFloat: string -> Option<real>)
      modifies this
      ensures var d := Normalise(form, RuleBook.DefaultName(old(rules)), parseFloat);
        && (old(Editing()) ==> rules == ApplyEdit(old(rules), old(editingId).value, d))
        && (!old(Editing()) ==> rules == Append(old(rules), freshId, d))
      ensures editingId == None
    {
      var defaultName := DefaultName();
      var d := Normalise(form, defaultName, parseFloat);
      assert d == Normalise(form, RuleBook.DefaultName(old(rules)), parseFloat);
      if Truthy(editingId) {
        rules := ApplyEdit(rules, editingId.value, d);
      } else {
        rules := Append(rules, freshId, d);
      }
      editingId := None;
    }

    /** The confirmed delete of `confirmDelete(ruleId)`: drops every rule with that id. */
    method ConfirmDelete(ruleId: string)
      modifies this
      ensures rules == Remove(old(rules), ruleId)
      ensures editingId == old(editingId)
    {
      // `if (!ruleLi) return`: the rendered list shows exactly `rules`, so no list
      // item exists for an id no rule has, and nothing is deleted.
      var listed := FindIndex(rules, ruleId);
      if listed.None? {
        RemoveSpec(rules, ruleId);
        return;
      }
      rules := Remove(rules, ruleId);
    }
  }
}
