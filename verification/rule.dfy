/**
 * The stored rule record, as the editors write it and the background worker
 * reads it. Fields that older or hand-edited records may lack are optional;
 * a missing `matcher` or `scriptContent` is represented by the empty string,
 * which every reader treats the same way as absence.
 */
module RuleModel {
  import opened Wrappers

  datatype Rule = Rule(
    id: string,
    name: string,
    matcherMode: Option<string>,
    matcher: string,
    scriptContent: string,
    delaySeconds: Option<real>,
    injectionCondition: Option<string>)
}
