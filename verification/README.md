# maude — a verified model of rule matching, injection scheduling and rule bookkeeping

maude is a browser extension that injects user scripts into pages. A user
keeps a list of *rules*. Each rule has:
- a name;
- a matcher, which is a wildcard pattern or a regular expression;
- a script;
- an optional delay in seconds;
- an optional JavaScript *condition*.

The background worker watches navigations. For every rule whose matcher
accepts the new address, it starts an injection task. The task waits out the
delay. If the rule has a condition, the task evaluates it in the page. When
the delay is positive it re-polls the condition once per delay period until
it holds; with no delay, one failed check ends the task without injecting.
Once the condition holds, or when there is none, the task appends the script
to the page. Two editors, the side panel and the toolbar popup, let the user
add, edit and delete rules. The panel can also import a rule from a published
manifest.

This project models that core in Dafny and proves what it promises.

| file | module | models |
|---|---|---|
| `wrappers.dfy` | `Wrappers` | `Option` and `Result` |
| `text.dfy` | `Text` | JavaScript `trim` (its exact whitespace set), `startsWith`, decimal spelling and `parseInt` of digit strings |
| `regex_fragment.dfy` | `RegexFragment` | the regular-expression syntax `wildcardToRegex` can emit (escaped literals, `.`, `.*`, `^…$`), its parser and its matcher |
| `rule.dfy` | `RuleModel` | the stored rule record |
| `matching.dfy` | `Matching` | `wildcardToRegex`, `urlMatchesRule` |
| `scheduler.dfy` | `Scheduler` | `injectScript`, `runCondition`, `scheduleInjection` |
| `navigation.dfy` | `Navigation` | `onTabUpdated` |
| `rule_book.dfy` | `RuleBook` | the pure list bookkeeping both editors share |
| `panel.dfy` | `Panel` | the panel editor and the field mapping of a manifest import |
| `popup.dfy` | `Popup` | the popup editor |

## How the pieces are modelled

- **Wildcards.** `wildcardToRegex` is modelled literally, as its three
  replaces. The text they produce is parsed by a small model of the regex
  syntax involved and matched by a recursive matcher.
  - `WildcardCompiles` shows that the escaped text always compiles to one
    piece per pattern character. So the `catch` in `urlMatchesRule` is never
    reached in wildcard mode.
  - In JavaScript, `.` does not match a line terminator (LF, CR, U+2028,
    U+2029). The model keeps this: `?` and `*` never consume one.
- **Regex mode.** It is an oracle `engine(pattern, url)` that either throws
  or answers.
- **Scheduling.**
  - The task created by `scheduleInjection` is the class
    `Scheduler.InjectionTask`. The browser drives it through two methods:
    `FireTimer` (a timer it armed fires) and `AnswerArrived` (the answer to
    its condition evaluation arrives).
  - Every request the task makes is recorded, in order, in `effects`:
    arming a timer, evaluating the condition, or executing the script.
  - The methods are specified by the pure state machine `Start` /
    `OnTimer` / `OnReply`. `Run` replays any sequence of events through it.
  - The properties are lemmas over `Run`. `Reachable` lists every state a
    task can reach, and it is the class invariant.
- **Navigation.** The loop of `onTabUpdated` is the method
  `StartSelected`. It runs over any filter `applies`, and `OnTabUpdated`
  passes it `urlMatchesRule` for the address. The rules it starts for are
  `Select(rules, applies)`.
- **Editors.** Each editor is a class holding the module-level `rules`
  array and `editingId`. Their methods are specified by the pure functions
  of `RuleBook`: `Normalise`, `Append`, `ApplyEdit`, `Remove` and
  `DefaultName`.
  - `getNextUnnamedIndex` keeps its loop.
  - The form's contents, the generated id, `parseFloat` and the writing
    of a delay as text are parameters.
  - The popup's save awaits the script between building the data and
    reading `editingId` and `rules`. It is two methods, `BeginSave` and
    `FinishSave`, so that what happens in between (a Cancel, a second
    Save) is part of the model.

The automatic name suffix is one more than the largest suffix in use, not
the smallest unused one (`panel/panel.js:36-43`, `popup/popup.js:26-33`), so
gaps are never reused. In the model, where indices are exact integers,
`DefaultNameIsFresh` proves that the default name never collides with an
existing name. The program keeps that guarantee only while every index in use
is below 2^53 − 1 (see `RuleBook.DefaultNameIsFresh` under "Left out").

## Model

| member | source | states |
|---|---|---|
| Text.IsLineTerminator | background.js:13-16 | the four characters JavaScript's `.` refuses to match and `trim` also strips: LF, CR, U+2028 and U+2029 |
| Text.IsSpace | background.js:32 | the characters `trim` strips: ECMAScript's WhiteSpace set and the four line terminators |
| Text.IsBlank | background.js:32 | a string `trim` empties: every character is one `IsSpace` accepts (see `Text.Trim`) |
| Text.Trim | background.js:32 | `trim`, with JavaScript's whitespace set, is empty exactly when the input is blank, and otherwise neither begins nor ends with whitespace |
| Text.TrimIsInterior | background.js:32 | `trim` removes only whitespace: its result is a slice of the input with blanks, and nothing else, on either side |
| Text.TrimsAtCons | background.js:32 | a leading blank shifts where `trim` cuts by one place |
| Text.TrimsAtSnoc | background.js:32 | a trailing blank leaves where `trim` cuts unchanged |
| Text.TrimOfTrimmed | panel/panel.js:197 | a string that neither begins nor ends with whitespace is its own trim |
| Text.TrimIdempotent | background.js:74 | trimming twice is trimming once |
| Text.StartsWith | background.js:109 | `startsWith`: the string begins with the prefix; also used at `panel/panel.js:109` |
| Text.NatToDecimal | panel/panel.js:47 | `'' + n` is a non-empty digit string with no leading zero when n > 0 |
| Text.DecimalValue | panel/panel.js:40 | `parseInt(digits, 10)` of a string of decimal digits, read most significant digit first |
| Text.DecimalRoundTrip | panel/panel.js:40 | `parseInt` of the decimal spelling of n gives back n |
| RegexFragment.Accepts | background.js:25 | whether one atom matches one character: a literal its own character, `.` any character but a line terminator |
| RegexFragment.IsSyntaxChar | background.js:13-16 | ECMAScript's SyntaxCharacter set, the characters that have a role in a pattern unless escaped |
| RegexFragment.ParseAtom | background.js:16 | a parsed atom consumes at least one and at most all of the source |
| RegexFragment.ParsePieces | background.js:16 | how `new RegExp` reads a body of escaped literals, `.` and starred atoms; `Matching.ParseBody` states what it gives for a translated pattern |
| RegexFragment.Compile | background.js:16 | `new RegExp('^' + body + '$')` for a body in the fragment; see `Matching.WildcardCompiles` |
| RegexFragment.Matches | background.js:25 | whether the pieces, in order, consume the whole address, as `.test` on an anchored regex decides; `RegexFragment.RepeatSplit` states the starred case |
| RegexFragment.RepeatSplit | background.js:15 | `x*` followed by the rest matches s iff some prefix of s consists of characters `x` accepts and the rest matches the remainder |
| Matching.IsEscaped | background.js:13 | the characters of the class `[.+^${}()\|[\]\\]` that the first replace escapes |
| Matching.EscapeMeta | background.js:13 | the first replace: every regex syntax character other than `?` and `*` gets a backslash in front, every other character is kept |
| Matching.QuestionToDot | background.js:14 | the second replace: every `?` becomes `.` |
| Matching.StarToDotStar | background.js:15 | the third replace: every `*` becomes `.*` |
| Matching.WildcardToRegex | background.js:11-17 | the regex source is the translated pattern anchored by `^` and `$`, so it must match the whole address |
| Matching.GlobPieces | background.js:14-15 | the glob reading of a pattern has one piece per character: `?` one character, `*` any run, anything else itself |
| Matching.QuestionToDotAppend | background.js:14 | the `?` replace distributes over concatenation |
| Matching.StarToDotStarAppend | background.js:15 | the `*` replace distributes over concatenation |
| Matching.BodyCons | background.js:12-15 | the three global replaces act character by character |
| Matching.BodyShape | background.js:12-15 | the translated body never starts with a bare `*` |
| Matching.ParseCharSource | background.js:13-16 | the translation of one non-`*` character, put before a body that does not start with `*`, parses to that character's glob piece followed by the body's pieces |
| Matching.ParseBody | background.js:12-15 | the translated body parses back to exactly the glob pieces of the pattern |
| Matching.WildcardCompiles | background.js:11-17 | `new RegExp('^' + escaped + '$')` never throws and denotes the glob reading, anchored at both ends |
| Matching.WildcardTest | background.js:25 | `wildcardToRegex(matcher).test(url)`; `Matching.WildcardTestIsGlob` states what it accepts |
| Matching.WildcardTestIsGlob | background.js:25 | the compiled regex accepts exactly the addresses the glob reading accepts |
| Matching.GlobPiecesAppend | background.js:14-15 | the glob reading distributes over concatenation |
| Matching.LiteralPatternMatchesOnlyItself | background.js:13 | a pattern without `?` or `*` matches an address iff the two are equal (every other metacharacter is escaped) |
| Matching.QuestionConsumesOne | background.js:14 | a leading `?` consumes exactly one character, never a line terminator |
| Matching.StarConsumesAnyRun | background.js:15 | a leading `*` consumes any run, possibly empty, of non-line-terminator characters |
| Matching.LiteralPrefix | background.js:13 | a literal prefix of the pattern must equal the same prefix of the address |
| Matching.StarAfterLiteral | background.js:11-17 | a literal pattern followed by `*` matches the literal followed by any character that is not a line terminator |
| Matching.QuestionAfterLiteral | background.js:11-17 | a literal pattern followed by `?` matches the literal followed by exactly one character, not by two |
| Matching.StarExample | background.js:11-17 | `https://x.com/*` matches `https://x.com/a` |
| Matching.QuestionExamples | background.js:11-17 | `https://x.com/a?` matches `https://x.com/ab` and not `https://x.com/abc` |
| Matching.UrlMatchesRule | background.js:19-29 | `urlMatchesRule`: false for an empty matcher; in mode `regex` the engine's answer, false when it throws; otherwise the wildcard test |
| Matching.UrlMatchesRuleCases | background.js:19-29 | an empty matcher matches nothing; exactly mode `regex` consults the engine, and a throw counts as no match; every other mode, including a missing one, is the glob reading |
| Scheduler.ConditionRequest | background.js:48-68 | the `executeScript` request `runCondition` makes: none for a missing or blank condition, else one evaluation of the code |
| Scheduler.InjectScript | background.js:31-32 | blank or whitespace-only content makes no request; otherwise exactly one execute request with that content |
| Scheduler.RunCondition | background.js:48-68 | `runCondition` given the browser's answer: true for a missing or blank condition, false for a rejection, else whether the first frame's result is exactly `true` |
| Scheduler.RunConditionOutcomes | background.js:48-67 | a missing or blank condition holds without asking; a rejected request is false; otherwise only a first frame result strictly equal to `true` counts |
| Scheduler.Inject | background.js:76-78 | `doInject`: the `injectScript` requests are appended and one injection is counted; the task is then done |
| Scheduler.Check | background.js:80-81 | `checkConditionThenInject` up to its wait: the condition request is appended and the task awaits the answer |
| Scheduler.Arm | background.js:85-100 | `setTimeout(callback, delayMs)`: one timer request of the period, with the callback it will run |
| Scheduler.Step | background.js:76-88 | one browser event: a timer fires only when one is pending, an answer arrives only when one is awaited |
| Scheduler.DelayMs | background.js:71-73 | the delay in ms is never negative, and positive exactly when `delaySeconds` is present and positive |
| Scheduler.IsBlankOpt | background.js:49 | the blank-condition test `!code \|\| !code.trim()`; its negation is `c && c.trim()` of background.js:74 |
| Scheduler.HasCondition | background.js:74 | `hasCondition`: the condition is present and not blank |
| Scheduler.Start | background.js:90-103 | the state `scheduleInjection` leaves: one timer for `doInject` or `checkConditionThenInject` when the delay is positive, otherwise `doInject` or the first condition request at once |
| Scheduler.OnTimer | background.js:76-88 | a firing timer runs the callback it was armed with: `doInject`, or `checkConditionThenInject` up to its request |
| Scheduler.OnReply | background.js:81-87 | an answer injects when the condition holds, re-arms a timer of the period when it fails with a positive delay, and otherwise stops |
| Scheduler.Run | background.js:70-103 | the state after `scheduleInjection` and a sequence of timer and answer events, none when an event arrives that the task is not waiting for |
| Scheduler.PollEffectsShape | background.js:84-86 | a run of failed polls requests only timers of the rule's period and never executes the script |
| Scheduler.StartReachable | background.js:90-103 | the state `scheduleInjection` leaves is one `Reachable` lists |
| Scheduler.StepReachable | background.js:80-88 | a timer firing or an answer arriving keeps the task among the `Reachable` states |
| Scheduler.RunReachable | background.js:70-103 | every state after any sequence of browser events is one `Reachable` lists |
| Scheduler.ThenInject | background.js:76-78 | `doInject` after requests that never executed the script leaves at most one execute request |
| Scheduler.InjectsAtMostOnce | background.js:76-88 | whatever the browser does, `doInject` runs at most once and the script is executed at most once; the phase is `Injected` exactly when `doInject` has run; and once injected no further event reaches the task |
| Scheduler.TimersWaitAppend | background.js:85 | joining two request lists whose timers all wait the same period keeps that property |
| Scheduler.ReachableTimers | background.js:71-103 | in every reachable state every requested timer is of `delayMs`, and with zero delay no timer is requested |
| Scheduler.TimersUseThePeriod | background.js:71-100 | every timer the task ever requests is a `setTimeout` of `delaySeconds * 1000` ms, with `delaySeconds` present and positive |
| Scheduler.NoConditionNeverEvaluates | background.js:90-96 | without a non-blank condition the page is never asked to evaluate anything and the task is either waiting on its one timer or done |
| Scheduler.NoConditionSchedule | background.js:90-96 | without a condition the script is injected at once when the delay is absent or not positive; otherwise after exactly one timer of `delaySeconds*1000` ms |
| Scheduler.ConditionSchedule | background.js:99-103 | with a condition the first evaluation is requested at once without a delay, otherwise when the first timer fires |
| Scheduler.ZeroDelayNeverRetries | background.js:80-88 | with a condition and no delay the task takes exactly one answer: true injects, anything else stops it for good without injecting |
| Scheduler.FailingConditionPollsForever | background.js:80-88 | with a delay, a condition that keeps failing is re-checked for ever, each check after a requested `setTimeout` of the same period, with no injection |
| Scheduler.PollSucceeds | background.js:81-83 | the first true answer of a polling run injects the script once and ends the task |
| Scheduler.InjectionTask.constructor | background.js:70-103 | `scheduleInjection` leaves the task in `Start(rule)`, a reachable state |
| Scheduler.InjectionTask.SetTimer | background.js:85 | arming records one `setTimeout` request of the task's period and the callback it will run |
| Scheduler.InjectionTask.RunDoInject | background.js:76-78 | `doInject` appends the `injectScript` requests and counts one injection |
| Scheduler.InjectionTask.RunCheckCondition | background.js:80-81 | `checkConditionThenInject` requests the evaluation and waits for its answer |
| Scheduler.InjectionTask.FireTimer | background.js:76-82 | a firing timer runs its callback, as `OnTimer` says, and keeps the task reachable |
| Scheduler.InjectionTask.AnswerArrived | background.js:81-87 | the answer injects on true, re-arms on false with a positive delay, and otherwise stops, as `OnReply` says; the task stays reachable |
| Navigation.IsInternal | background.js:109 | a `chrome://` or `chrome-extension://` address |
| Navigation.Handles | background.js:107-109 | the guards: status `complete`, an address that is present and non-empty, and not an internal page |
| Navigation.MatchingRules | background.js:112-116 | the rules the loop starts a task for: `Select` with `urlMatchesRule` for the address; `Navigation.SelectMembers` and the rows after it state its properties |
| Navigation.Select | background.js:112-116 | the loop's filter never selects more rules than the list holds |
| Navigation.SelectMembers | background.js:112-116 | the rules started are exactly the rules in the list that match |
| Navigation.SelectAppend | background.js:112-116 | filtering keeps list order: the filter of a concatenation is the concatenation of the filters |
| Navigation.SelectKeepsDuplicates | background.js:112-116 | no dedupe: a matching rule is started once per occurrence in the list, and a rule that does not match is never started |
| Navigation.StartSelected | background.js:112-116 | the loop gives every selected rule, in list order, its own fresh task, distinct from the others and started as `scheduleInjection` starts it |
| Navigation.OnTabUpdated | background.js:106-117 | nothing starts unless the status is `complete`, the address is present and it is not a `chrome://` or `chrome-extension://` page; otherwise one fresh, distinct task per matching rule, in list order, each started as `scheduleInjection` starts it |
| RuleBook.Truthy | panel/panel.js:209 | the truthiness test on optional text (`if (editingId)`): present and not empty |
| RuleBook.Or | panel/panel.js:105 | a default applies exactly when the value is missing or the empty string; otherwise the value is kept |
| RuleBook.UnnamedIndex | panel/panel.js:39-40 | the index a name carries: 1 for `(unnamed)`, N for `(unnamed N)` with N decimal digits, none for any other name |
| RuleBook.MaxUnnamed | panel/panel.js:36-41 | the loop's `max` bounds every index carried by an `(unnamed)`/`(unnamed N)` name and is either 0 or carried by one of them |
| RuleBook.NextUnnamedIndex | panel/panel.js:36-43 | the next index is at least 1 and exceeds every index in use |
| RuleBook.NameWithIndex | panel/panel.js:47 | `(unnamed)` for index 1, `(unnamed N)` with N in decimal otherwise |
| RuleBook.DefaultName | panel/panel.js:45-48 | the automatic name for the next index |
| RuleBook.NameWithIndexCarries | panel/panel.js:39-47 | the name built for index n is recognised by the name pattern as carrying n |
| RuleBook.DefaultNameIsFresh | panel/panel.js:45-48 | the default name differs from the name of every existing rule |
| RuleBook.DefaultNameIsPlainWhenUnused | panel/panel.js:45-47 | the default name is plain `(unnamed)` exactly when no name carries a positive index |
| RuleBook.DefaultNameAdvances | popup/popup.js:26-38 | after a rule takes the default name, the next index is one higher and the next default name differs |
| RuleBook.Stamp | panel/panel.js:213 | `{ id, ...data }` carries the given id and every data field unchanged |
| RuleBook.SavedDelay | panel/panel.js:198-203 | a stored delay is never negative and is the parsed field; an empty, unparsable or negative field stores none |
| RuleBook.SavedCondition | panel/panel.js:204 | a blank condition is stored as absent, any other as its trimmed text, which is not blank |
| RuleBook.Normalise | panel/panel.js:197-205 | the name is the trimmed name, else the placeholder, else the default name; the matcher is trimmed; delay and condition as above; mode and script as given |
| RuleBook.SavedConditionIsHonoured | background.js:74 | the background worker finds a condition on a saved rule exactly when the editor's condition field was not blank |
| RuleBook.NameWithIndexIsTrimmed | panel/panel.js:47 | automatic names are already trimmed |
| RuleBook.SavedRuleIsNormalised | popup/popup.js:153-161 | given a chosen mode and a trimmed placeholder (as is every placeholder `getDefaultName` sets), the saved record has a non-empty trimmed name, a trimmed matcher, a set mode, a non-negative delay if any and a trimmed non-blank condition if any |
| RuleBook.EditForm | panel/panel.js:165-170 | opening a rule for editing shows its name, its mode or `wildcard`, its matcher, its delay written out or empty, its condition or empty, and its script |
| RuleBook.ResaveIsIdentity | panel/panel.js:165-211 | opening a normalised rule and saving it untouched writes the same record back, provided the delay survives being written out and parsed |
| RuleBook.Append | panel/panel.js:213 | adding puts exactly one record, with the generated id, after the unchanged existing records |
| RuleBook.FindIndex | panel/panel.js:210 | `find` picks the first rule with the id, and finds none exactly when no rule has it |
| RuleBook.ApplyEdit | panel/panel.js:209-211 | an edit keeps the list's length and every rule's id |
| RuleBook.ApplyEditSpec | panel/panel.js:209-211 | editing overwrites every data field of the first rule with the id, keeping its id and position; every other rule is untouched; with no such rule nothing changes |
| RuleBook.Remove | panel/panel.js:240 | after a delete the survivors are exactly the rules without the id |
| RuleBook.RemoveAppend | popup/popup.js:196 | deleting keeps the survivors in their original order: the delete of a concatenation is the concatenation of the deletes |
| RuleBook.RemoveSpec | panel/panel.js:240 | no rule with the id is left, and a list without the id is unchanged |
| RuleBook.RemoveCounts | popup/popup.js:196 | every rule without the id keeps its number of occurrences; every rule with it is gone |
| RuleBook.RemoveIdempotent | panel/panel.js:240 | deleting twice is deleting once |
| Panel.LastSlash | panel/panel.js:104 | finds the last `/`, none exactly when there is none |
| Panel.BaseUrl | panel/panel.js:104 | the base address is the manifest address cut just after its last `/`, or the address itself when it has none |
| Panel.FetchManifestFormData | panel/panel.js:98-123 | a blank address fails with "Enter a manifest URL" and only then; a manifest answer that is not ok fails with its status; success implies the trimmed address was fetched successfully |
| Panel.ImportedFields | panel/panel.js:105-121 | on success: the manifest's name or `Unnamed`; mode `regex` exactly when the manifest says `regex`, else `wildcard`; the manifest's matches or `*`; delay and condition as text or empty; the script fetched from the resolved address, or empty when there is none |
| Panel.ScriptUrl | panel/panel.js:109 | a script path starting with `http` as it stands, any other appended to the base address |
| Panel.ScriptUrlResolution | panel/panel.js:104-109 | a script path starting with `http` is fetched as it stands, any other relative to the manifest's directory |
| Panel.NamesScript | panel/panel.js:108 | `if (jsFile)`: a non-empty path, or a truthy value of another JSON kind |
| Panel.MissingScriptStopsImport | panel/panel.js:108-111 | a script that cannot be fetched fails the import with "Script not found" and the path |
| Panel.NonTextScriptFails | panel/panel.js:108-109 | a truthy `js` that is not a string fails the import, since it has no `startsWith` |
| Panel.ImportedForm | panel/panel.js:125-136 | `applyFormData`: the form takes the imported values, with `wildcard` for an empty mode; `Panel.ImportThenSave` states what saving it stores |
| Panel.ImportThenSave | panel/panel.js:98-136 | importing a manifest and saving the form untouched stores the trimmed manifest name (`Unnamed` when missing, the default name when blank), `regex` exactly when the manifest says so and `wildcard` otherwise, the trimmed matches (the star when missing), the fetched script or none, and the manifest's condition as a save keeps it |
| Panel.PanelEditor.constructor | panel/panel.js:28-29 | the editor starts with no rules and nothing being edited |
| Panel.PanelEditor.NextUnnamedIndex | panel/panel.js:36-43 | the loop over `rules` returns one more than the largest index in use, at least 1 and above every index |
| Panel.PanelEditor.DefaultName | panel/panel.js:45-48 | the default name, which no rule has yet |
| Panel.PanelEditor.Editing | panel/panel.js:209 | `if (editingId)`: a save edits rather than adds exactly when `editingId` is a non-empty id |
| Panel.PanelEditor.OpenForm | panel/panel.js:155-188 | records `editingId`; shows an existing rule's fields, nothing for an unknown id, or a new form with the default placeholder and either the import or the page address |
| Panel.PanelEditor.SaveFromForm | panel/panel.js:196-221 | edits the rule with a non-empty `editingId` in place, or appends the normalised record under the generated id; closes the form |
| Panel.PanelEditor.ConfirmDelete | panel/panel.js:223-246 | the confirmed delete filters out exactly the rules with the id and leaves `editingId` alone |
| Popup.PopupEditor.constructor | popup/popup.js:19-20 | the editor starts with no rules and nothing being edited |
| Popup.PopupEditor.NextUnnamedIndex | popup/popup.js:26-33 | the loop returns one more than the largest index in use, at least 1 and above every index |
| Popup.PopupEditor.DefaultName | popup/popup.js:35-38 | the default name, which no rule has yet |
| Popup.PopupEditor.Editing | popup/popup.js:165 | `if (editingId)`: a save edits rather than adds exactly when `editingId` is a non-empty id |
| Popup.PopupEditor.OpenForm | popup/popup.js:116-145 | records `editingId`; shows an existing rule's fields, nothing for an unknown id, or a new form with the default placeholder and the active tab's address |
| Popup.PopupEditor.CloseForm | popup/popup.js:147-150 | closing the form forgets `editingId` and leaves the rules alone |
| Popup.PopupEditor.BeginSave | popup/popup.js:152-161 | before the script is awaited, the form is normalised with the default name of the rules as they are then; a default name taken is one no rule has |
| Popup.PopupEditor.FinishSave | popup/popup.js:163-177 | once the script settles, `editingId` and `rules` are read as they are then: edit in place or append under the generated id, and close; on a failed fetch nothing changes |
| Popup.PopupEditor.SaveFromForm | popup/popup.js:152-177 | with nothing else running during the fetch, when the script is obtained: edit in place or append under the generated id, and close the form; when fetching it fails: rules and `editingId` unchanged |
| Popup.PopupEditor.CancelDuringFetch | popup/popup.js:147-177 | Cancel pressed while an edit's script is fetched clears `editingId`, so the save appends a new rule and the edited rule stays as it was |
| Popup.PopupEditor.SaveTwiceDuringFetch | popup/popup.js:152-177 | two saves of a new rule begun before either finishes append two records with the same data, default name included, and leave no rule being edited |
| Popup.PopupEditor.ConfirmDelete | popup/popup.js:179-204 | the confirmed delete filters out exactly the rules with the id |

## Left out

- Storage. `chrome.storage.local` reads and writes are I/O: `loadRules` in all three files and `saveRules` in the panel and the popup. The rule list is a parameter of `onTabUpdated` and a field of each editor.
- Regex mode. `new RegExp(rule.matcher).test(url)` is JavaScript's own regex engine. It is the `engine` parameter, which may throw or answer.
- Browser side effects. Real timers, `chrome.scripting.executeScript`, the in-page `eval`, and the Blob and `<script>` creation are outside the model. They appear only as the requests a task records and the events that drive it. A promise rejection from the script injection itself is not modelled.
- Numbers. `delaySeconds * 1000` is exact real arithmetic, with no floating-point rounding. `parseFloat` and the writing of a delay as text in the edit form are parameters, and NaN is `None`. The automatic-name index is an exact integer: `parseInt`, `max + 1` and `'' + n` (`NatToDecimal`) are not rounded to doubles.
- RuleBook.DefaultNameIsFresh (and `DefaultNameAdvances`, `Panel.PanelEditor.DefaultName`, `Popup.PopupEditor.DefaultName`): proved for exact integers. The program keeps it only while every index in use is below 2^53 − 1. One rule named `(unnamed 9007199254740992)` makes `max + 1` round back to 2^53, so the default name is that rule's name. An index of 10^21 or more is written `1e+21`, which the name pattern does not recognise, so once a rule takes that name the next default name is the same.
- RuleBook.SavedRuleIsNormalised: proved only when the mode field is not empty and the placeholder is trimmed. Every path that opens the form sets the mode field to a non-empty value (`panel/panel.js:128,166,174`), but the page's markup, which could leave it empty, is not part of this model. `getDefaultName` only ever sets trimmed placeholders. When an existing rule is edited, the form keeps whatever placeholder the field already had; with a blank name and an untrimmed placeholder such as `" x"`, the record stores the untrimmed name `" x"`.
- Timer lengths. The model records the argument of each `setTimeout` request. Browsers convert it to a 32-bit integer: fractions are dropped and the value wraps modulo 2^32 ms. A result of 2^31 or more reads as negative and fires at once, so a failing condition with `delaySeconds` in [2147483.648, 4294967.296) is re-polled without waiting; a longer delay waits its length modulo 2^32 ms.
- Characters. A Dafny `char` is a Unicode scalar value, while a JavaScript regex without the `u` flag works on UTF-16 code units. For an address with a character outside the Basic Multilingual Plane, `?` and `*` count it as one character where the program counts two (`?` does not match U+1F600 in the program but does in `GlobMatch`). Tab addresses are normally ASCII once serialised.
- Cancellation. The code has none, so none is modelled: a failing condition with a delay polls for ever.
- Ids. `generateId` uses the clock and randomness, so the new id is a parameter. The code does not ensure that ids are unique, and the model assumes nothing about it.
- Manifest values. JSON values that are not strings (a numeric name, say) are represented by their text, except for `js`, whose non-string values are kept apart and fail the import as the program's `startsWith` call does. The program's `||` defaults for `name`, `matches` and `injectionCondition` (`panel/panel.js:105-121`) also replace the falsy values `0`, `false` and `NaN`; in the model such a value is present text (`"0"`) and is kept. A failure of `res.json()` or `r.text()` is the generic `Failed` error.
- Editor UI. The following are UI or network work and are not modelled: rendering, `escapeHtml`, showing and hiding sections, event listeners, file reading, the message port that supplies the panel's page address, the popup's active-tab query, and the popup's script-source tabs. Their results are parameters: the form's contents, the prefill address, and the outcome of the popup's script fetch.
- The confirmation step of a delete is taken as given. `ConfirmDelete` is the click on Delete.
- docs/examples/copy-gcal-event-link/copy-gcal-event-link.js is a user script that scrapes the page DOM. It is not part of this model.
