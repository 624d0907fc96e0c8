/**
 * The navigation listener of background.js, `onTabUpdated`: it filters tab
 * updates and starts one injection task per matching rule.
 */
module Navigation {
  import opened Wrappers
  import opened Text
  import opened RuleModel
  import opened Matching
  import opened Scheduler

  /** Browser-internal pages, which are never touched. */
  predicate IsInternal(url: string) {
    StartsWith(url, "chrome://") || StartsWith(url, "chrome-extension://")
  }

  /**
   * Whether a tab update gets past the listener's guards: the page finished
   * loading, it has a non-empty address, and the address is not internal.
   */
  predicate Handles(status: Option<string>, url: Option<string>) {
    status == Some("complete") && url.Some? && url.value != "" && !IsInternal(url.value)
  }

  /** The rules of `rules` that `applies` accepts, in list order, duplicates kept. */
  function Select(rules: seq<Rule>, applies: Rule -> bool): (ms: seq<Rule>)
    ensures |ms| <= |rules|
    decreases |rules|
  {
    if rules == [] then []
    else
      var prefix := rules[..|rules| - 1];
      var last := rules[|rules| - 1];
      assert rules == prefix + [last];
      Select(prefix, applies) + (if applies(last) then [last] else [])
  }

  /** Exactly the rules of the list that `applies` accepts are selected. */
  lemma {:induction false} SelectMembers(rules: seq<Rule>, applies: Rule -> bool, r: Rule)
    ensures r in Select(rules, applies) <==> r in rules && applies(r)
    decreases |rules|
  {
    if rules != [] {
      var prefix := rules[..|rules| - 1];
      assert rules == prefix + [rules[|rules| - 1]];
      SelectMembers(prefix, applies, r);
    }
  }

  /** The rules `onTabUpdated` starts a task for: those `urlMatchesRule` accepts for the address. */
  function MatchingRules(url: string, rules: seq<Rule>, engine: (string, string) -> RegexOutcome): seq<Rule> {
    Select(rules, (r: Rule) => UrlMatchesRule(url, r, engine))
  }

  /** Selecting from a list made of two parts selects from each part, in order. */
  lemma {:induction false} SelectAppend(a: seq<Rule>, b: seq<Rule>, applies: Rule -> bool)
    ensures Select(a + b, applies) == Select(a, applies) + Select(b, applies)
    decreases |b|
  {
    if b == [] {
      assert a + b == a;
    } else {
      var b' := b[..|b| - 1];
      assert (a + b)[..|a + b| - 1] == a + b';
      assert (a + b)[|a + b| - 1] == b[|b| - 1];
      SelectAppend(a, b', applies);
    }
  }

  /**
   * No dedupe: a rule that applies is selected as many times as it occurs
   * in the list, and one that does not is never selected.
   */
  lemma {:induction false} SelectKeepsDuplicates(rules: seq<Rule>, applies: Rule -> bool, r: Rule)
    ensures multiset(Select(rules, applies))[r] == if applies(r) then multiset(rules)[r] else 0
    decreases |rules|
  {
    if rules != [] {
      var prefix := rules[..|rules| - 1];
      assert rules == prefix + [rules[|rules| - 1]];
      SelectKeepsDuplicates(prefix, applies, r);
    }
  }

  /**
   * The loop of `onTabUpdated` over the stored rules: every rule that
   * matches `url`, in list order, gets its own new task.
   */
  method StartSelected(tabId: int, rules: seq<Rule>, applies: Rule -> bool)
    returns (tasks: seq<InjectionTask>)
    ensures var ms := Select(rules, applies);
      && |tasks| == |ms|
      && forall i :: 0 <= i < |tasks| ==> tasks[i].StartedFor(tabId, ms[i])
    ensures forall i :: 0 <= i < |tasks| ==> fresh(tasks[i])
    ensures forall i, j :: 0 <= i < j < |tasks| ==> tasks[i] != tasks[j]
  {
    tasks := [];
    var i := 0;
    ghost var ms: seq<Rule> := [];
    while i < |rules|
      invariant 0 <= i <= |rules|
      invariant ms == Select(rules[..i], applies)
      invariant |tasks| == |ms|
      invariant forall k :: 0 <= k < |tasks| ==> tasks[k].StartedFor(tabId, ms[k])
      invariant forall k :: 0 <= k < |tasks| ==> fresh(tasks[k])
      invariant forall k, l :: 0 <= k < l < |tasks| ==> tasks[k] != tasks[l]
    {
      var rule := rules[i];
      assert rules[..i + 1][..i] == rules[..i];
      if applies(rule) {
        var task := new InjectionTask(tabId, rule);
        assert forall k :: 0 <= k < |tasks| ==> tasks[k] != task;
        tasks := tasks + [task];
        ms := ms + [rule];
      }
      i := i + 1;
    }
    assert rules[..i] == rules;
  }

  /**
   * `onTabUpdated(tabId, changeInfo, tab)` once the stored rules have been
   * loaded: every matching rule, in list order, gets its own new task,
   * started as `scheduleInjection` starts it; an update the guards reject
   * starts nothing.
   */
  method OnTabUpdated(tabId: int, status: Option<string>, url: Option<string>, rules: seq<Rule>,
                      engine: (string, string) -> RegexOutcome)
    returns (tasks: seq<InjectionTask>)
    ensures !Handles(status, url) ==> tasks == []
    ensures Handles(status, url) ==>
      var ms := MatchingRules(url.value, rules, engine);
      && |tasks| == |ms|
      && forall i :: 0 <= i < |tasks| ==> tasks[i].StartedFor(tabId, ms[i])
    ensures forall i :: 0 <= i < |tasks| ==> fresh(tasks[i])
    ensures forall i, j :: 0 <= i < j < |tasks| ==> tasks[i] != tasks[j]
  {
    tasks := [];
    if status != Some("complete") || url.None? || url.value == "" {
      return;
    }
    var u := url.value;
    if StartsWith(u, "chrome://") || StartsWith(u, "chrome-extension://") {
      return;
    }
    tasks := StartSelected(tabId, rules, (r: Rule) => UrlMatchesRule(u, r, engine));
  }
}
