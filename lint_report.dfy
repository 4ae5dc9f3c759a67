/**
 * The linter's JSON report, as the scripts read it after `json.loads`: a list of
 * per-file results, each with a file path and a list of messages.  Fields the
 * scripts read with `.get(key, default)` keep the distinction between an absent
 * key and a present one.
 */
module LintReport {
  import opened Wrappers

  /** A message's `ruleId`: absent, JSON `null` (the linter's value for parse errors), or a rule name. */
  datatype RuleField = NoRuleField | NullRule | RuleName(name: string)

  datatype Message = Message(ruleId: RuleField, text: Option<string>, line: Option<int>, column: Option<int>)

  /** One element of the report; an absent `messages` key is the empty list. */
  datatype FileReport = FileReport(filePath: Option<string>, messages: seq<Message>)

  const UnusedVarsRule: string := "@typescript-eslint/no-unused-vars"
  const ExplicitAnyRule: string := "@typescript-eslint/no-explicit-any"

  /** `message.get('ruleId') == rule`. */
  predicate HasRule(m: Message, rule: string) {
    m.ruleId == RuleName(rule)
  }

  /** `message.get('message', '')`. */
  function TextOf(m: Message): string {
    match m.text
    case Some(t) => t
    case None => ""
  }

  /** `message.get('line', 0)`. */
  function LineOf(m: Message): int {
    match m.line
    case Some(n) => n
    case None => 0
  }

  /** `message.get('column', 0)`. */
  function ColumnOf(m: Message): int {
    match m.column
    case Some(n) => n
    case None => 0
  }

  /** `file_result.get('filePath', '')`. */
  function PathOf(r: FileReport): string {
    match r.filePath
    case Some(p) => p
    case None => ""
  }

  /** A source file met by a directory walk: its directory, its name and its text. */
  datatype SourceFile = SourceFile(root: string, name: string, content: string)

  /** `os.path.join(root, name)` for a plain file name. */
  function JoinPath(root: string, name: string): string {
    if root == [] || root[|root| - 1] == '/' then root + name else root + "/" + name
  }
}
