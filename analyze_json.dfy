/**
 * The analyzer of the linter's JSON report: it counts the messages of each file
 * by rule, stores the counts under the file's directory and name, keeps a count
 * per rule over all files and a grand total, and then lists the directories and
 * their files by non-increasing number of issues, with the five most frequent
 * rules of each file and the ten most frequent rules overall.
 *
 * The nested `defaultdict`s the script mutates in place are values here that the
 * methods reassign: reading `d[k]` is `Get(d, k, default)`, writing it is `Put`.
 */
module AnalyzeJson {
  import opened Wrappers
  import opened Text
  import opened Dicts
  import opened Sorting
  import opened LintReport

  /** The key a message is counted under, `message.get('ruleId', 'unknown')`: a missing
      `ruleId` becomes the string 'unknown', a JSON null stays a key of its own (None). */
  type RuleKey = Option<string>

  function KeyOf(m: Message): RuleKey {
    match m.ruleId
    case NoRuleField => Some("unknown")
    case NullRule => None
    case RuleName(n) => Some(n)
  }

  /** rule -> count; file name -> rules; directory -> files. */
  type Rules = Dict<RuleKey, nat>
  type Files = Dict<string, Rules>
  type Dirs = Dict<string, Files>

  // ---------------------------------------------------------------------------
  // Counting messages by rule

  /** `d[k]` on a `defaultdict(int)`. */
  function CountOf(d: Rules, k: RuleKey): nat {
    Get(d, k, 0)
  }

  /** `d[k] += 1` on a `defaultdict(int)`. */
  function Bump(d: Rules, k: RuleKey): Rules {
    Put<RuleKey, nat>(d, k, CountOf(d, k) + 1)
  }

  /** `d[rule] += 1` for each message in turn. */
  /** A message without `ruleId` adds one to the 'unknown' count; one whose `ruleId` is
      null leaves it alone. */
  lemma UnknownRule(d: Rules, m: Message)
    ensures m.ruleId.NoRuleField? ==> CountOf(Bump(d, KeyOf(m)), Some("unknown")) == CountOf(d, Some("unknown")) + 1
    ensures m.ruleId.NullRule? ==> CountOf(Bump(d, KeyOf(m)), Some("unknown")) == CountOf(d, Some("unknown"))
  {
    GetPut<RuleKey, nat>(d, KeyOf(m), CountOf(d, KeyOf(m)) + 1, Some("unknown"), 0);
  }

  function BumpAll(d: Rules, msgs: seq<Message>): Rules
  {
    if msgs == [] then d else Bump(BumpAll(d, msgs[..|msgs| - 1]), KeyOf(msgs[|msgs| - 1]))
  }

  /** How many of the messages are counted under k. */
  function CountKey(msgs: seq<Message>, k: RuleKey): nat
  {
    if msgs == [] then 0
    else CountKey(msgs[..|msgs| - 1], k) + (if KeyOf(msgs[|msgs| - 1]) == k then 1 else 0)
  }

  lemma {:induction false} CountKeyConcat(a: seq<Message>, b: seq<Message>, k: RuleKey)
    ensures CountKey(a + b, k) == CountKey(a, k) + CountKey(b, k)
  {
    if b == [] {
      assert a + b == a;
    } else {
      assert (a + b)[..|a + b| - 1] == a + b[..|b| - 1];
      CountKeyConcat(a, b[..|b| - 1], k);
    }
  }

  /** Each key's count grows by the number of messages counted under it. */
  lemma {:induction false} BumpAllCounts(d: Rules, msgs: seq<Message>, k: RuleKey)
    ensures CountOf(BumpAll(d, msgs), k) == CountOf(d, k) + CountKey(msgs, k)
  {
    if msgs != [] {
      var prev := BumpAll(d, msgs[..|msgs| - 1]);
      var key := KeyOf(msgs[|msgs| - 1]);
      var n: nat := CountOf(prev, key) + 1;
      BumpAllCounts(d, msgs[..|msgs| - 1], k);
      GetPut(prev, key, n, k, 0);
    }
  }

  /** Every message adds one to the sum of the counts. */
  lemma {:induction false} BumpAllTotal(d: Rules, msgs: seq<Message>)
    ensures Total(BumpAll(d, msgs)) == Total(d) + |msgs|
  {
    if msgs != [] {
      var prev := BumpAll(d, msgs[..|msgs| - 1]);
      var key := KeyOf(msgs[|msgs| - 1]);
      var n: nat := CountOf(prev, key) + 1;
      BumpAllTotal(d, msgs[..|msgs| - 1]);
      TotalPut(prev, key, n);
    }
  }

  /** A dictionary of counts in which every stored count is at least 1. */
  predicate Counted(r: Rules) {
    Distinct(r) && forall x :: x in r ==> x.1 >= 1
  }

  lemma {:induction false} BumpAllCounted(d: Rules, msgs: seq<Message>)
    requires Counted(d)
    ensures Counted(BumpAll(d, msgs))
    ensures msgs != [] ==> BumpAll(d, msgs) != []
  {
    if msgs != [] {
      var prev := BumpAll(d, msgs[..|msgs| - 1]);
      var key := KeyOf(msgs[|msgs| - 1]);
      var n: nat := CountOf(prev, key) + 1;
      BumpAllCounted(d, msgs[..|msgs| - 1]);
      DistinctPut(prev, key, n);
      PutItems(prev, key, n);
    }
  }

  lemma {:induction false} UpdateCounted(d: Rules, items: Rules)
    requires Counted(d) && Counted(items)
    ensures Counted(Update(d, items))
    ensures items != [] ==> Update(d, items) != []
  {
    if items != [] {
      var prev := Update(d, items[..|items| - 1]);
      var last := items[|items| - 1];
      assert Counted(items[..|items| - 1]) by {
        forall x | x in items[..|items| - 1] ensures x in items {
        }
      }
      UpdateCounted(d, items[..|items| - 1]);
      DistinctPut(prev, last.0, last.1);
      PutItems(prev, last.0, last.1);
    }
  }

  // ---------------------------------------------------------------------------
  // The mapping directory -> file -> rule -> count

  /** Every stored file has a rule, and every stored count is at least 1. */
  predicate FilesTidy(f: Files) {
    f != [] && Distinct(f) && forall y :: y in f ==> y.1 != [] && Counted(y.1)
  }

  predicate DirsTidy(d: Dirs) {
    Distinct(d) && forall x :: x in d ==> FilesTidy(x.1)
  }

  /** `sum(sum(rules.values()) for rules in files.values())`: the issues of a directory. */
  function FilesTotal(files: Files): nat {
    SumBy(files, Total)
  }

  /** The issues stored in the whole mapping. */
  function DirsTotal(d: Dirs): nat {
    SumBy(d, FilesTotal)
  }

  /** `issues_by_dir[dir][name]`, read through the two `defaultdict`s. */
  function RulesAt(d: Dirs, dir: string, name: string): Rules {
    Get(Get(d, dir, []), name, [])
  }

  /** Storing `rules` as `issues_by_dir[dir][name]`. */
  function Store(d: Dirs, dir: string, name: string, rules: Rules): Dirs {
    Put(d, dir, Put(Get(d, dir, []), name, rules))
  }

  /** The directory and the file name have an entry in the mapping. */
  predicate Placed(d: Dirs, dir: string, name: string) {
    dir in Keys(d) && name in Keys(Get(d, dir, []))
  }

  lemma FilesOfTidy(d: Dirs, dir: string)
    requires DirsTidy(d)
    ensures Get(d, dir, []) == [] || FilesTidy(Get(d, dir, []))
  {
    if dir in Keys(d) {
      GetIn(d, dir, []);
    } else {
      GetMissing(d, dir, []);
    }
  }

  lemma RulesOfTidy(files: Files, name: string)
    requires files == [] || FilesTidy(files)
    ensures Counted(Get(files, name, []))
  {
    if name in Keys(files) {
      GetIn(files, name, []);
    } else {
      GetMissing(files, name, []);
    }
  }

  lemma StoreTidy(d: Dirs, dir: string, name: string, rules: Rules)
    requires DirsTidy(d) && rules != [] && Counted(rules)
    ensures DirsTidy(Store(d, dir, name, rules))
  {
    var files := Get(d, dir, []);
    FilesOfTidy(d, dir);
    var files' := Put(files, name, rules);
    DistinctPut(files, name, rules);
    PutItems(files, name, rules);
    assert FilesTidy(files');
    DistinctPut(d, dir, files');
    PutItems(d, dir, files');
  }

  /** Storing a file's rules changes the stored sum by the difference between its new and old rules. */
  lemma StoreTotal(d: Dirs, dir: string, name: string, rules: Rules)
    ensures DirsTotal(Store(d, dir, name, rules)) + Total(RulesAt(d, dir, name)) == DirsTotal(d) + Total(rules)
  {
    var files := Get(d, dir, []);
    SumByPut(files, name, rules, [], Total);
    SumByPut(d, dir, Put(files, name, rules), [], FilesTotal);
  }

  lemma StorePlaces(d: Dirs, dir: string, name: string, rules: Rules, x: string, y: string)
    ensures Placed(Store(d, dir, name, rules), x, y) <==> Placed(d, x, y) || (x == dir && y == name)
  {
    var files := Get(d, dir, []);
    var files' := Put(files, name, rules);
    GetPut(d, dir, files', x, []);
    PutKeys(d, dir, files');
    PutKeys(files, name, rules);
    if dir !in Keys(d) {
      GetMissing(d, dir, []);
    }
  }

  /** A place without an entry reads as no rules. */
  lemma UnplacedEmpty(d: Dirs, dir: string, name: string)
    requires !Placed(d, dir, name)
    ensures RulesAt(d, dir, name) == []
  {
    if dir in Keys(d) {
      GetMissing(Get(d, dir, []), name, []);
    } else {
      GetMissing(d, dir, []);
    }
  }

  // ---------------------------------------------------------------------------
  // parse_eslint_report

  /** The mapping, the count per rule and the number of messages. */
  datatype Parsed = Parsed(byDir: Dirs, ruleCounts: Rules, total: nat)

  /** Why the analysis stops: the report file is missing or is not JSON (the script
      exits with status 1), or a file result with messages has no `filePath` (an
      uncaught `KeyError`). */
  datatype Failure = ReportUnreadable | MissingFilePath

  /** Where a file result is stored: the directory and the base name of its path. */
  function Place(r: FileReport): (string, string) {
    (Dirname(PathOf(r)), Basename(PathOf(r)))
  }

  /** One file result with messages added: its counts by rule are written over the
      entry of its place rule by rule, and added to the counts per rule and the total. */
  function Count(p: Parsed, path: string, msgs: seq<Message>): Parsed {
    var dir := Dirname(path);
    var name := Basename(path);
    Parsed(Store(p.byDir, dir, name, Update(RulesAt(p.byDir, dir, name), BumpAll([], msgs))),
           BumpAll(p.ruleCounts, msgs), p.total + |msgs|)
  }

  /** The loop over the file results. */
  function Parse(report: seq<FileReport>): Result<Parsed, Failure>
  {
    if report == [] then Success(Parsed([], [], 0))
    else
      var prev := Parse(report[..|report| - 1]);
      var r := report[|report| - 1];
      if prev.Failure? || r.messages == [] then prev
      else if r.filePath.None? then Failure(MissingFilePath)
      else Success(Count(prev.value, r.filePath.value, r.messages))
  }

  /** All the messages of the report, file after file. */
  function Messages(report: seq<FileReport>): seq<Message> {
    if report == [] then [] else Messages(report[..|report| - 1]) + report[|report| - 1].messages
  }

  /** Once a file result has failed, the whole report fails. */
  lemma {:induction false} ParseFailureStays(report: seq<FileReport>, j: nat)
    requires j <= |report| && Parse(report[..j]).Failure?
    ensures Parse(report) == Parse(report[..j])
  {
    if |report| == j {
      assert report[..j] == report;
    } else {
      assert report[..|report| - 1][..j] == report[..j];
      ParseFailureStays(report[..|report| - 1], j);
    }
  }

  /** The analysis fails exactly when some file result has messages but no path. */
  lemma {:induction false} ParseFails(report: seq<FileReport>)
    ensures Parse(report).Failure? <==>
            exists t :: 0 <= t < |report| && report[t].messages != [] && report[t].filePath.None?
  {
    if report != [] {
      var init := report[..|report| - 1];
      ParseFails(init);
      if exists t :: 0 <= t < |init| && init[t].messages != [] && init[t].filePath.None? {
        var t :| 0 <= t < |init| && init[t].messages != [] && init[t].filePath.None?;
        assert report[t] == init[t];
      }
      if exists t :: 0 <= t < |report| && report[t].messages != [] && report[t].filePath.None? {
        var t :| 0 <= t < |report| && report[t].messages != [] && report[t].filePath.None?;
        if t < |init| {
          assert init[t] == report[t];
        }
      }
    }
  }

  /** `total_issues` is the number of messages and the sum of the counts per rule, and
      each rule's count is the number of messages counted under it. */
  lemma {:induction false} ParseCounts(report: seq<FileReport>, k: RuleKey)
    requires Parse(report).Success?
    ensures Parse(report).value.total == |Messages(report)|
    ensures Total(Parse(report).value.ruleCounts) == Parse(report).value.total
    ensures CountOf(Parse(report).value.ruleCounts, k) == CountKey(Messages(report), k)
  {
    if report != [] {
      var init := report[..|report| - 1];
      var r := report[|report| - 1];
      ParseCounts(init, k);
      var p := Parse(init).value;
      BumpAllTotal(p.ruleCounts, r.messages);
      BumpAllCounts(p.ruleCounts, r.messages, k);
      CountKeyConcat(Messages(init), r.messages, k);
    }
  }

  /** Every stored file has a rule, every stored count and every rule count is at least 1. */
  lemma {:induction false} ParseTidy(report: seq<FileReport>)
    requires Parse(report).Success?
    ensures DirsTidy(Parse(report).value.byDir)
    ensures Counted(Parse(report).value.ruleCounts)
  {
    if report != [] {
      var init := report[..|report| - 1];
      var r := report[|report| - 1];
      ParseTidy(init);
      if r.messages != [] {
        var p := Parse(init).value;
        var path := r.filePath.value;
        var old_ := RulesAt(p.byDir, Dirname(path), Basename(path));
        var fileIssues := BumpAll([], r.messages);
        FilesOfTidy(p.byDir, Dirname(path));
        RulesOfTidy(Get(p.byDir, Dirname(path), []), Basename(path));
        BumpAllCounted([], r.messages);
        UpdateCounted(old_, fileIssues);
        StoreTidy(p.byDir, Dirname(path), Basename(path), Update(old_, fileIssues));
        BumpAllCounted(p.ruleCounts, r.messages);
      }
    }
  }

  /** A place has an entry exactly when some file result with messages is stored there:
      results without messages never appear. */
  lemma {:induction false} ParsePlaces(report: seq<FileReport>, x: string, y: string)
    requires Parse(report).Success?
    ensures Placed(Parse(report).value.byDir, x, y) <==> FiledAt(report, x, y)
  {
    if report != [] {
      var init := report[..|report| - 1];
      var r := report[|report| - 1];
      ParsePlaces(init, x, y);
      if r.messages != [] {
        var p := Parse(init).value;
        var path := r.filePath.value;
        var rules := Update(RulesAt(p.byDir, Dirname(path), Basename(path)), BumpAll([], r.messages));
        StorePlaces(p.byDir, Dirname(path), Basename(path), rules, x, y);
      }
      PlacesSnoc(report, x, y);
    }
  }

  /** Some file result with messages is stored at (x, y). */
  predicate FiledAt(report: seq<FileReport>, x: string, y: string) {
    exists t :: 0 <= t < |report| && report[t].messages != [] && Place(report[t]) == (x, y)
  }

  lemma PlacesSnoc(report: seq<FileReport>, x: string, y: string)
    requires report != []
    ensures FiledAt(report, x, y) <==>
            FiledAt(report[..|report| - 1], x, y) || (report[|report| - 1].messages != [] && Place(report[|report| - 1]) == (x, y))
  {
    var init := report[..|report| - 1];
    if FiledAt(report, x, y) {
      var t :| 0 <= t < |report| && report[t].messages != [] && Place(report[t]) == (x, y);
      if t < |init| {
        assert init[t] == report[t];
      }
    }
    if FiledAt(init, x, y) {
      var t :| 0 <= t < |init| && init[t].messages != [] && Place(init[t]) == (x, y);
      assert report[t] == init[t];
      assert report[t].messages != [] && Place(report[t]) == (x, y);
    }
    var k := |report| - 1;
    if report[k].messages != [] && Place(report[k]) == (x, y) {
      assert 0 <= k < |report|;
    }
  }

  /** Counts stored under a place that is met again are overwritten rule by rule, so the
      mapping never holds more issues than `total_issues`. */
  lemma {:induction false} ParseBounded(report: seq<FileReport>)
    requires Parse(report).Success?
    ensures DirsTotal(Parse(report).value.byDir) <= Parse(report).value.total
  {
    if report != [] {
      var init := report[..|report| - 1];
      var r := report[|report| - 1];
      ParseBounded(init);
      if r.messages != [] {
        var p := Parse(init).value;
        var path := r.filePath.value;
        var old_ := RulesAt(p.byDir, Dirname(path), Basename(path));
        var fileIssues := BumpAll([], r.messages);
        UpdateTotal(old_, fileIssues);
        BumpAllTotal([], r.messages);
        StoreTotal(p.byDir, Dirname(path), Basename(path), Update(old_, fileIssues));
      }
    }
  }

  /** No two file results with messages share a directory and a base name. */
  predicate DistinctPlaces(report: seq<FileReport>) {
    forall s, t :: 0 <= s < t < |report| && report[s].messages != [] && report[t].messages != [] ==>
      Place(report[s]) != Place(report[t])
  }

  /** When the places are distinct, the mapping's sum is `total_issues`: no count is lost. */
  lemma {:induction false} ParseExact(report: seq<FileReport>)
    requires Parse(report).Success? && DistinctPlaces(report)
    ensures DirsTotal(Parse(report).value.byDir) == Parse(report).value.total
  {
    if report != [] {
      var init := report[..|report| - 1];
      var r := report[|report| - 1];
      DistinctPlacesInit(report);
      ParseExact(init);
      if r.messages != [] {
        var p := Parse(init).value;
        var path := r.filePath.value;
        FreshPlace(report);
        UnplacedEmpty(p.byDir, Dirname(path), Basename(path));
        var fileIssues := BumpAll([], r.messages);
        BumpAllCounted([], r.messages);
        UpdateEmpty(fileIssues);
        BumpAllTotal([], r.messages);
        StoreTotal(p.byDir, Dirname(path), Basename(path), fileIssues);
      }
    }
  }

  /** Reading a place after a store gives the stored rules there and the old ones elsewhere. */
  lemma StoreRulesAt(d: Dirs, dir: string, name: string, rules: Rules, x: string, y: string)
    ensures RulesAt(Store(d, dir, name, rules), x, y) == if (x, y) == (dir, name) then rules else RulesAt(d, x, y)
  {
    var files := Get(d, dir, []);
    GetPut(d, dir, Put(files, name, rules), x, []);
    GetPut(files, name, rules, y, []);
  }

  lemma DistinctPlacesInit(report: seq<FileReport>)
    requires report != [] && DistinctPlaces(report)
    ensures DistinctPlaces(report[..|report| - 1])
  {
    var init := report[..|report| - 1];
    forall s, t | 0 <= s < t < |init| && init[s].messages != [] && init[t].messages != []
      ensures Place(init[s]) != Place(init[t])
    {
      assert init[s] == report[s] && init[t] == report[t];
    }
  }

  /** When the places are distinct, each file result with messages is stored under its
      own place with exactly its own counts by rule, which add up to its messages. */
  lemma {:induction false} ParseFileRules(report: seq<FileReport>, t: nat)
    requires Parse(report).Success? && DistinctPlaces(report)
    requires t < |report| && report[t].messages != []
    ensures RulesAt(Parse(report).value.byDir, Place(report[t]).0, Place(report[t]).1) == BumpAll([], report[t].messages)
    ensures Total(RulesAt(Parse(report).value.byDir, Place(report[t]).0, Place(report[t]).1)) == |report[t].messages|
  {
    var init := report[..|report| - 1];
    var k := |report| - 1;
    var r := report[k];
    var x, y := Place(report[t]).0, Place(report[t]).1;
    DistinctPlacesInit(report);
    if t == k {
      var p := Parse(init).value;
      var path := r.filePath.value;
      FreshPlace(report);
      UnplacedEmpty(p.byDir, Dirname(path), Basename(path));
      var fileIssues := BumpAll([], r.messages);
      BumpAllCounted([], r.messages);
      UpdateEmpty(fileIssues);
      StoreRulesAt(p.byDir, Dirname(path), Basename(path), fileIssues, x, y);
    } else {
      assert init[t] == report[t];
      ParseFileRules(init, t);
      if r.messages != [] {
        var p := Parse(init).value;
        var path := r.filePath.value;
        var rules := Update(RulesAt(p.byDir, Dirname(path), Basename(path)), BumpAll([], r.messages));
        StoreRulesAt(p.byDir, Dirname(path), Basename(path), rules, x, y);
      }
    }
    BumpAllTotal([], report[t].messages);
  }

  /** With distinct places, the last file result's place has no entry yet. */
  lemma FreshPlace(report: seq<FileReport>)
    requires report != [] && DistinctPlaces(report) && Parse(report).Success?
    requires report[|report| - 1].messages != []
    ensures var r := report[|report| - 1];
            !Placed(Parse(report[..|report| - 1]).value.byDir, Dirname(PathOf(r)), Basename(PathOf(r)))
  {
    var init := report[..|report| - 1];
    var r := report[|report| - 1];
    ParsePlaces(init, Dirname(PathOf(r)), Basename(PathOf(r)));
  }

  /** `parse_eslint_report`: the report is read (None when the file is missing or not JSON). */
  method ParseReport(json: Option<seq<FileReport>>) returns (result: Result<Parsed, Failure>)
    ensures json.None? ==> result == Failure(ReportUnreadable)
    ensures json.Some? ==> result == Parse(json.value)
  {
    if json.None? {
      return Failure(ReportUnreadable);
    }
    var report := json.value;
    var byDir: Dirs := [];
    var ruleCounts: Rules := [];
    var total: nat := 0;
    for i := 0 to |report|
      invariant Parse(report[..i]).Success?
      invariant Parse(report[..i]).value.byDir == byDir
      invariant Parse(report[..i]).value.ruleCounts == ruleCounts
      invariant Parse(report[..i]).value.total == total
    {
      assert report[..i + 1][..i] == report[..i];
      var r := report[i];
      if r.messages != [] {
        if r.filePath.None? {
          assert Parse(report[..i + 1]) == Failure(MissingFilePath);
          ParseFailureStays(report, i + 1);
          return Failure(MissingFilePath);
        }
        byDir, ruleCounts, total := CountFile(byDir, ruleCounts, total, r.filePath.value, r.messages);
      }
    }
    assert report[..|report|] == report;
    return Success(Parsed(byDir, ruleCounts, total));
  }

  /** The body of the loop for one file result with messages. */
  method CountFile(byDir: Dirs, ruleCounts: Rules, total: nat, path: string, msgs: seq<Message>)
    returns (byDir': Dirs, ruleCounts': Rules, total': nat)
    ensures Parsed(byDir', ruleCounts', total') == Count(Parsed(byDir, ruleCounts, total), path, msgs)
  {
    var directory := Dirname(path);
    var filename := Basename(path);
    var fileIssues: Rules := [];
    ruleCounts' := ruleCounts;
    total' := total;
    for j := 0 to |msgs|
      invariant fileIssues == BumpAll([], msgs[..j])
      invariant ruleCounts' == BumpAll(ruleCounts, msgs[..j])
      invariant total' == total + j
    {
      assert msgs[..j + 1][..j] == msgs[..j];
      var ruleId := KeyOf(msgs[j]);
      fileIssues := Bump(fileIssues, ruleId);
      ruleCounts' := Bump(ruleCounts', ruleId);
      total' := total' + 1;
    }
    assert msgs[..|msgs|] == msgs;
    // issues_by_dir[directory][filename] is updated in place, rule by rule
    var rules := RulesAt(byDir, directory, filename);
    for j := 0 to |fileIssues|
      invariant rules == Update(RulesAt(byDir, directory, filename), fileIssues[..j])
    {
      assert fileIssues[..j + 1][..j] == fileIssues[..j];
      rules := Put(rules, fileIssues[j].0, fileIssues[j].1);
    }
    assert fileIssues[..|fileIssues|] == fileIssues;
    byDir' := Store(byDir, directory, filename, rules);
  }

  // ---------------------------------------------------------------------------
  // display_analysis, without colours, percentages and printing

  const TopRulesPerFile: nat := 5
  const TopRulesOverall: nat := 10

  /** A file's line: its name, its issues, its most frequent rules and how many rules are not shown. */
  datatype FileLine = FileLine(filename: string, total: nat, topRules: seq<(RuleKey, nat)>, moreRules: nat)

  /** A directory's heading and its files. */
  datatype DirBlock = DirBlock(directory: string, total: nat, files: seq<FileLine>)

  datatype Analysis = Analysis(totalIssues: nat, dirs: seq<DirBlock>, topRules: seq<(RuleKey, nat)>)

  function FileLineOf(files: Files, item: (string, nat)): FileLine
  {
    var sortedRules := SortByCountDesc(Get(files, item.0, []));
    FileLine(item.0, item.1, Take(sortedRules, TopRulesPerFile),
             if |sortedRules| > TopRulesPerFile then |sortedRules| - TopRulesPerFile else 0)
  }

  function FileLines(files: Files, sorted: seq<(string, nat)>): seq<FileLine>
  {
    if sorted == [] then [] else FileLines(files, sorted[..|sorted| - 1]) + [FileLineOf(files, sorted[|sorted| - 1])]
  }

  function DirBlockOf(d: Dirs, item: (string, nat)): DirBlock
  {
    var files := Get(d, item.0, []);
    DirBlock(item.0, item.1, FileLines(files, SortByCountDesc(MapValues(files, Total))))
  }

  function DirBlocks(d: Dirs, sorted: seq<(string, nat)>): seq<DirBlock>
  {
    if sorted == [] then [] else DirBlocks(d, sorted[..|sorted| - 1]) + [DirBlockOf(d, sorted[|sorted| - 1])]
  }

  function TopRules(ruleCounts: Rules): seq<(RuleKey, nat)> {
    Take(SortByCountDesc(ruleCounts), TopRulesOverall)
  }

  function Analyze(d: Dirs, ruleCounts: Rules, total: nat): Analysis
  {
    Analysis(total, DirBlocks(d, SortByCountDesc(MapValues(d, FilesTotal))), TopRules(ruleCounts))
  }

  /** The `dir_totals` loop. */
  method DirectoryTotals(d: Dirs) returns (dirTotals: Dict<string, nat>)
    ensures dirTotals == MapValues(d, FilesTotal)
  {
    dirTotals := [];
    for i := 0 to |d|
      invariant dirTotals == MapValues(d[..i], FilesTotal)
    {
      assert d[..i + 1][..i] == d[..i];
      dirTotals := Put(dirTotals, d[i].0, FilesTotal(d[i].1));
    }
    assert d[..|d|] == d;
  }

  /** One directory's files, sorted, each with its top rules. */
  method ListFiles(d: Dirs, directory: string, dirTotal: nat) returns (block: DirBlock)
    ensures block == DirBlockOf(d, (directory, dirTotal))
  {
    var files := Get(d, directory, []);
    var sortedFiles := SortByCountDesc(MapValues(files, Total));
    var lines: seq<FileLine> := [];
    for j := 0 to |sortedFiles|
      invariant lines == FileLines(files, sortedFiles[..j])
    {
      assert sortedFiles[..j + 1][..j] == sortedFiles[..j];
      var sortedRules := SortByCountDesc(Get(files, sortedFiles[j].0, []));
      var more := if |sortedRules| > TopRulesPerFile then |sortedRules| - TopRulesPerFile else 0;
      lines := lines + [FileLine(sortedFiles[j].0, sortedFiles[j].1, Take(sortedRules, TopRulesPerFile), more)];
    }
    assert sortedFiles[..|sortedFiles|] == sortedFiles;
    block := DirBlock(directory, dirTotal, lines);
  }

  /** `display_analysis`: what it lists, in the order it lists it. */
  method DisplayAnalysis(d: Dirs, ruleCounts: Rules, total: nat) returns (a: Analysis)
    ensures a == Analyze(d, ruleCounts, total)
  {
    var dirTotals := DirectoryTotals(d);
    var sortedDirs := SortByCountDesc(dirTotals);
    var blocks: seq<DirBlock> := [];
    for i := 0 to |sortedDirs|
      invariant blocks == DirBlocks(d, sortedDirs[..i])
    {
      assert sortedDirs[..i + 1][..i] == sortedDirs[..i];
      var block := ListFiles(d, sortedDirs[i].0, sortedDirs[i].1);
      blocks := blocks + [block];
    }
    assert sortedDirs[..|sortedDirs|] == sortedDirs;
    a := Analysis(total, blocks, TopRules(ruleCounts));
  }

  // ---------------------------------------------------------------------------
  // What the listing shows

  lemma {:induction false} DirBlocksItems(d: Dirs, sorted: seq<(string, nat)>)
    ensures |DirBlocks(d, sorted)| == |sorted|
    ensures forall i :: 0 <= i < |sorted| ==> DirBlocks(d, sorted)[i] == DirBlockOf(d, sorted[i])
  {
    if sorted != [] {
      var prev := DirBlocks(d, sorted[..|sorted| - 1]);
      DirBlocksItems(d, sorted[..|sorted| - 1]);
      forall i | 0 <= i < |sorted| ensures (prev + [DirBlockOf(d, sorted[|sorted| - 1])])[i] == DirBlockOf(d, sorted[i]) {
        if i < |prev| {
          assert sorted[..|sorted| - 1][i] == sorted[i];
        }
      }
    }
  }

  lemma {:induction false} FileLinesItems(files: Files, sorted: seq<(string, nat)>)
    ensures |FileLines(files, sorted)| == |sorted|
    ensures forall i :: 0 <= i < |sorted| ==> FileLines(files, sorted)[i] == FileLineOf(files, sorted[i])
  {
    if sorted != [] {
      var prev := FileLines(files, sorted[..|sorted| - 1]);
      FileLinesItems(files, sorted[..|sorted| - 1]);
      forall i | 0 <= i < |sorted| ensures (prev + [FileLineOf(files, sorted[|sorted| - 1])])[i] == FileLineOf(files, sorted[i]) {
        if i < |prev| {
          assert sorted[..|sorted| - 1][i] == sorted[i];
        }
      }
    }
  }

  /** A part of a sum is at most the sum. */
  lemma {:induction false} SumByItem<K, V>(d: Dict<K, V>, x: (K, V), w: V -> nat)
    requires x in d
    ensures w(x.1) <= SumBy(d, w)
  {
    if d[0] != x {
      SumByItem(d[1..], x, w);
    }
  }

  lemma FilesTotalPositive(files: Files)
    requires FilesTidy(files)
    ensures FilesTotal(files) >= 1
  {
    assert files[0] in files;
    assert files[0].1[0] in files[0].1;
  }

  /** An item of the sorted directory totals is a directory of the mapping with its own total. */
  lemma SortedDirItem(d: Dirs, item: (string, nat))
    requires DirsTidy(d) && item in SortByCountDesc(MapValues(d, FilesTotal))
    ensures item.0 in Keys(d) && item.1 == FilesTotal(Get(d, item.0, [])) && item.1 >= 1
  {
    var m := MapValues(d, FilesTotal);
    SortedItems(m);
    MapValuesItems(d, FilesTotal);
    var t :| 0 <= t < |m| && m[t] == item;
    GetPresent(d, t, []);
    assert d[t] in d;
    FilesTotalPositive(d[t].1);
  }

  /** Every directory of the mapping is listed once, by non-increasing total, each with
      the total of its files, which is at least 1. */
  lemma DirectoriesListed(d: Dirs, ruleCounts: Rules, total: nat)
    requires DirsTidy(d)
    ensures var dirs := Analyze(d, ruleCounts, total).dirs;
            && |dirs| == |d|
            && (forall i, j :: 0 <= i < j < |dirs| ==> dirs[i].total >= dirs[j].total)
            && (forall i :: 0 <= i < |dirs| ==>
                  dirs[i].directory in Keys(d) && dirs[i].total == FilesTotal(Get(d, dirs[i].directory, []))
                  && dirs[i].total >= 1)
  {
    var m := MapValues(d, FilesTotal);
    var sorted := SortByCountDesc(m);
    MapValuesItems(d, FilesTotal);
    DirBlocksItems(d, sorted);
    SortedItems(m);
    SortByCountDescSpec(m);
    forall i | 0 <= i < |sorted|
      ensures sorted[i].0 in Keys(d) && sorted[i].1 == FilesTotal(Get(d, sorted[i].0, [])) && sorted[i].1 >= 1
    {
      SortedDirItem(d, sorted[i]);
    }
  }

  /** No directory of the mapping is left out of the listing. */
  lemma DirectoriesComplete(d: Dirs, ruleCounts: Rules, total: nat, t: nat)
    requires t < |d|
    ensures exists i :: 0 <= i < |Analyze(d, ruleCounts, total).dirs| && Analyze(d, ruleCounts, total).dirs[i].directory == d[t].0
  {
    var m := MapValues(d, FilesTotal);
    var sorted := SortByCountDesc(m);
    DirBlocksItems(d, sorted);
    MapItemKey(d, FilesTotal, t);
    var x :| x in m && x.0 == d[t].0;
    SortedItems(m);
    var i :| 0 <= i < |sorted| && sorted[i] == x;
    assert Analyze(d, ruleCounts, total).dirs[i].directory == d[t].0;
  }

  /** Every key keeps an item in the mapped dictionary. */
  lemma {:induction false} MapItemKey<K, V, W>(d: Dict<K, V>, f: V -> W, t: nat)
    requires t < |d|
    ensures exists x :: x in MapValues(d, f) && x.0 == d[t].0
  {
    var init := d[..|d| - 1];
    var last := d[|d| - 1];
    var prev := MapValues(init, f);
    if t == |d| - 1 {
      assert (last.0, f(last.1)) in MapValues(d, f) by {
        PutHas(prev, last.0, f(last.1));
      }
    } else {
      MapItemKey(init, f, t);
      var x :| x in prev && x.0 == d[t].0;
      PutKeeps(prev, last.0, f(last.1), x);
    }
  }

  lemma {:induction false} PutKeeps<K, V>(d: Dict<K, V>, k: K, v: V, x: (K, V))
    requires x in d
    ensures exists y :: y in Put(d, k, v) && y.0 == x.0
  {
    if x.0 == k {
      PutHas(d, k, v);
    } else if d[0] == x {
      assert Put(d, k, v)[0] == x;
    } else {
      PutKeeps(d[1..], k, v, x);
      var y :| y in Put(d[1..], k, v) && y.0 == x.0;
      if d[0].0 != k {
        assert y in Put(d, k, v);
      } else {
        assert Put(d, k, v) == [(k, v)] + d[1..];
        assert x in d[1..];
      }
    }
  }

  /** The issues of a listing's file lines, added up. */
  function LinesTotal(ls: seq<FileLine>): nat {
    if ls == [] then 0 else LinesTotal(ls[..|ls| - 1]) + ls[|ls| - 1].total
  }

  lemma {:induction false} FileLinesTotal(files: Files, sorted: seq<(string, nat)>)
    ensures LinesTotal(FileLines(files, sorted)) == Total(sorted)
  {
    if sorted != [] {
      var prev := FileLines(files, sorted[..|sorted| - 1]);
      var line := FileLineOf(files, sorted[|sorted| - 1]);
      FileLinesTotal(files, sorted[..|sorted| - 1]);
      TotalLast(sorted);
      assert (prev + [line])[..|prev + [line]| - 1] == prev;
      assert LinesTotal(prev + [line]) == LinesTotal(prev) + line.total;
    }
  }

  /** A directory's files are listed by non-increasing count, and their counts add up to
      the directory's total. */
  lemma BlockAddsUp(d: Dirs, dir: string)
    requires DirsTidy(d)
    ensures var b := DirBlockOf(d, (dir, FilesTotal(Get(d, dir, []))));
            && LinesTotal(b.files) == b.total
            && (forall i, j :: 0 <= i < j < |b.files| ==> b.files[i].total >= b.files[j].total)
  {
    var files := Get(d, dir, []);
    FilesOfTidy(d, dir);
    var sorted := SortByCountDesc(MapValues(files, Total));
    FileLinesTotal(files, sorted);
    SortTotal(MapValues(files, Total));
    MapValuesTotal(files, Total);
    FileLinesItems(files, sorted);
    SortByCountDescSpec(MapValues(files, Total));
  }

  /** A file's line shows at most five of its rules, the most frequent ones, and the
      number of the others exactly when there are more than five. */
  lemma FileLineShows(files: Files, item: (string, nat))
    ensures var line := FileLineOf(files, item);
            var rules := Get(files, item.0, []);
            && |line.topRules| <= TopRulesPerFile
            && |line.topRules| + line.moreRules == |rules|
            && (line.moreRules > 0 <==> |rules| > TopRulesPerFile)
            && (forall x :: x in line.topRules ==> x in rules)
            && (forall x, y :: x in line.topRules && y in rules && y !in line.topRules ==> x.1 >= y.1)
  {
    var rules := Get(files, item.0, []);
    TopCountsMost(rules, TopRulesPerFile);
    SortedItems(rules);
  }

  /** The overall list shows at most ten rules, the most frequent ones; each count shown
      is between 1 and `total_issues`, so the percentages divide by a positive number. */
  lemma TopRulesShown(ruleCounts: Rules, total: nat)
    requires Counted(ruleCounts) && Total(ruleCounts) == total
    ensures var top := TopRules(ruleCounts);
            && |top| == (if |ruleCounts| <= TopRulesOverall then |ruleCounts| else TopRulesOverall)
            && (forall x :: x in top ==> x in ruleCounts && 1 <= x.1 <= total)
            && (forall x, y :: x in top && y in ruleCounts && y !in top ==> x.1 >= y.1)
  {
    TopCountsMost(ruleCounts, TopRulesOverall);
    SortedItems(ruleCounts);
    forall x | x in TopRules(ruleCounts) ensures x.1 <= total {
      TotalItem(ruleCounts, x);
    }
  }

  lemma {:induction false} TotalIsSum(r: Rules)
    ensures Total(r) == SumBy(r, n => n)
  {
    if r != [] {
      TotalIsSum(r[1..]);
    }
  }

  /** After a successful parse, every listed directory has between 1 and `total_issues`
      issues and every listed file between 1 and its directory's issues: the
      percentages never divide by zero. */
  lemma Denominators(report: seq<FileReport>, dir: string, name: string)
    requires Parse(report).Success?
    requires Placed(Parse(report).value.byDir, dir, name)
    ensures var d := Parse(report).value.byDir;
            && 1 <= Total(RulesAt(d, dir, name)) <= FilesTotal(Get(d, dir, []))
            && FilesTotal(Get(d, dir, [])) <= Parse(report).value.total
  {
    var d := Parse(report).value.byDir;
    ParseTidy(report);
    ParseBounded(report);
    var files := Get(d, dir, []);
    GetIn(d, dir, []);
    GetIn(files, name, []);
    SumByItem(d, (dir, files), FilesTotal);
    SumByItem(files, (name, RulesAt(d, dir, name)), Total);
    var rules := RulesAt(d, dir, name);
    assert rules[0] in rules;
    TotalIsSum(rules);
    SumByItem(rules, rules[0], n => n);
  }
}
