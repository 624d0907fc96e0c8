/**
 * The toolbar popup editor, popup/popup.js: the same bookkeeping as the
 * panel on its own `rules` array and `editingId`, without manifest import,
 * and with a script that may have to be fetched when the form is saved.
 */
module Popup {
  import opened Wrappers
  import opened Text
  import opened RuleModel
  import opened RuleBook

  /** The popup's module-level `rules` and `editingId`. */
  class PopupEditor {
    var rules: seq<Rule>
    var editingId: Option<string>

    constructor ()
      ensures rules == [] && editingId == None
    {
      rules := [];
      editingId := None;
    }

    /** Whether a save edits (`editingId` is a non-empty id) rather than adds. */
    predicate Editing()
      reads this
    {
      Truthy(editingId)
    }

    /** `getNextUnnamedIndex()` */
    method NextUnnamedIndex() returns (n: nat)
      ensures n == RuleBook.NextUnnamedIndex(rules)
      ensures n >= 1 && forall i :: 0 <= i < |rules| && UnnamedIndex(rules[i].name).Some? ==> UnnamedIndex(rules[i].name).value < n
    {
      var max := 0;
      var i := 0;
      while i < |rules|
        invariant 0 <= i <= |rules|
        invariant max == MaxUnnamed(rules[..i])
      {
        assert rules[..i + 1][..i] == rules[..i];
        var m := UnnamedIndex(rules[i].name);
        if m.Some? && m.value > max {
          max := m.value;
        }
        i := i + 1;
      }
      assert rules[..i] == rules;
      n := max + 1;
    }

    /** `getDefaultName()`: a name no rule has yet. */
    method DefaultName() returns (name: string)
      ensures name == RuleBook.DefaultName(rules)
      ensures forall i :: 0 <= i < |rules| ==> rules[i].name != name
    {
      var n := NextUnnamedIndex();
      name := if n == 1 then Unnamed else UnnamedPrefix + NatToDecimal(n) + ")";
      DefaultNameIsFresh(rules);
    }

    /**
     * `openForm(ruleId)`: records the rule being edited and returns the form
     * it shows. Editing an unknown id leaves the form as it was (None). A new
     * form carries the default name as placeholder and the active tab's
     * address (empty when there is none) as matcher. `placeholder` is the
     * placeholder the form had before; `show` writes a number as text.
     */
    method OpenForm(ruleId: Option<string>, placeholder: string, tabUrl: string, show: real -> string)
      returns (form: Option<Form>)
      modifies this
      ensures editingId == ruleId && rules == old(rules)
      ensures Truthy(ruleId) ==>
        match FindIndex(rules, ruleId.value)
        case None => form.None?
        case Some(k) => form == Some(EditForm(rules[k], placeholder, show))
      ensures !Truthy(ruleId) ==>
        form == Some(Form("", RuleBook.DefaultName(rules), "wildcard", tabUrl, "", "", ""))
    {
      editingId := ruleId;
      if Truthy(ruleId) {
        var k := FindIndex(rules, ruleId.value);
        if k.None? {
          return None;
        }
        form := Some(EditForm(rules[k.value], placeholder, show));
      } else {
        var defaultName := DefaultName();
        form := Some(Form("", defaultName, "wildcard", tabUrl, "", "", ""));
      }
    }

    /** `closeForm()`: hides the form and forgets the rule being edited. */
    method CloseForm()
      modifies this
      ensures editingId == None && rules == old(rules)
    {
      editingId := None;
    }

    /**
     * The part of `saveFromForm()` before it awaits the script: the form's
     * fields are normalised, with the default name taken from the rules as
     * they are now. The script field is filled in later, by `FinishSave`.
     */
    method BeginSave(form: Form, parseFloat: string -> Option<real>) returns (data: RuleData)
      ensures data == Normalise(form, RuleBook.DefaultName(rules), parseFloat)
      ensures IsBlank(form.name) && form.placeholder == "" ==> forall i :: 0 <= i < |rules| ==> rules[i].name != data.name
    {
      var defaultName := DefaultName();
      data := Normalise(form, defaultName, parseFloat);
    }

    /**
     * The part of `saveFromForm()` after `getScriptContentFromForm()` has
     * settled to `script`: the pasted or uploaded text, the fetched text, or
     * the failure of the fetch. `editingId` and `rules` are read only now, so
     * whatever happened to them while the script was awaited counts. On
     * success the data, with the script, either overwrites the rule with
     * `editingId` (if it still exists) or is appended under the generated id
     * `freshId`, and the form is closed; on failure nothing changes and the
     * form stays open.
     */
    method FinishSave(data: RuleData, script: Result<string, string>, freshId: string)
      modifies this
      ensures script.Err? ==> rules == old(rules) && editingId == old(editingId)
      ensures script.Ok? ==>
        var d := data.(scriptContent := script.value);
        && (old(Editing()) ==> rules == ApplyEdit(old(rules), old(editingId).value, d))
        && (!old(Editing()) ==> rules == Append(old(rules), freshId, d))
        && editingId == None
    {
      if script.Ok? {
        var d := data.(scriptContent := script.value);
        if Truthy(editingId) {
          rules := ApplyEdit(rules, editingId.value, d);
        } else {
          rules := Append(rules, freshId, d);
        }
        CloseForm();
      }
    }

    /**
     * `saveFromForm()` when nothing else runs while the script is awaited:
     * the form, normalised with that script, edits or appends as above.
     */
    method SaveFromForm(form: Form, script: Result<string, string>, freshId: string,
                        parseFloat: string -> Option<real>)
      modifies this
      ensures script.Err? ==> rules == old(rules) && editingId == old(editingId)
      ensures script.Ok? ==>
        var d := Normalise(form.(script := script.value), RuleBook.DefaultName(old(rules)), parseFloat);
        && (old(Editing()) ==> rules == ApplyEdit(old(rules), old(editingId).value, d))
        && (!old(Editing()) ==> rules == Append(old(rules), freshId, d))
        && editingId == None
    {
      var data := BeginSave(form, parseFloat);
      if script.Ok? {
        assert data.(scriptContent := script.value)
            == Normalise(form.(script := script.value), RuleBook.DefaultName(rules), parseFloat);
      }
      FinishSave(data, script, freshId);
    }

    /**
     * Cancel pressed while an edit's script is being fetched: `closeForm()`
     * clears `editingId` before the save resumes, so the edit is appended as
     * a new rule and the rule being edited is left as it was.
     */
    method CancelDuringFetch(form: Form, script: string, freshId: string, parseFloat: string -> Option<real>)
      modifies this
      ensures var d := Normalise(form, RuleBook.DefaultName(old(rules)), parseFloat).(scriptContent := script);
        rules == Append(old(rules), freshId, d)
      ensures editingId == None
    {
      var data := BeginSave(form, parseFloat);
      CloseForm();
      FinishSave(data, Ok(script), freshId);
    }

    /**
     * Save pressed twice while a new rule's script is being fetched: both
     * saves computed their data, and so their default name, before either
     * appended, so two records are appended with the same data.
     */
    method SaveTwiceDuringFetch(form: Form, script: string, id1: string, id2: string,
                                parseFloat: string -> Option<real>)
      requires !Editing()
      modifies this
      ensures var d := Normalise(form, RuleBook.DefaultName(old(rules)), parseFloat).(scriptContent := script);
        rules == old(rules) + [Stamp(id1, d), Stamp(id2, d)]
      ensures editingId == None
    {
      var first := BeginSave(form, parseFloat);
      var second := BeginSave(form, parseFloat);
      FinishSave(first, Ok(script), id1);
      FinishSave(second, Ok(script), id2);
    }

    /** The confirmed delete of `confirmDelete(ruleId)`: drops every rule with that id. */
    method ConfirmDelete(ruleId: string)
      modifies this
      ensures rules == Remove(old(rules), ruleId)
      ensures editingId == old(editingId)
    {
      rules := Remove(rules, ruleId);
    }
  }
}
