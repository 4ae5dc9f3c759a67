/**
 * The renamer of unused variables: it takes the linter's unused-variable messages,
 * reads the variable's name from between the first two quotes of each message, groups
 * the names by file, and in each existing file rewrites the declarations of every name
 * (nine patterns, applied in order, each replacing all its matches) so that the name
 * gets a leading underscore.  A name is left alone when the text already holds it
 * with an underscore in front.  Only the files whose text changed are written.
 */
module FixAllUnusedVars {
  import opened Wrappers
  import opened Text
  import opened Dicts
  import opened Patterns
  import opened LintReport

  // ---------------------------------------------------------------------------
  // get_eslint_issues

  /** An unused variable as the linter reports it. */
  datatype Issue = Issue(file: string, line: int, column: int, variable: string)

  /** The index of the first quote at or after i. */
  function QuoteFrom(s: string, i: nat): (r: Option<nat>)
    requires i <= |s|
    ensures r.Some? ==> i <= r.value < |s| && s[r.value] == '\''
    ensures r.Some? ==> forall t :: i <= t < r.value ==> s[t] != '\''
    ensures r.None? ==> forall t :: i <= t < |s| ==> s[t] != '\''
    decreases |s| - i
  {
    if i == |s| then None else if s[i] == '\'' then Some(i) else QuoteFrom(s, i + 1)
  }

  /** `text.split("'")[1] if "'" in text else ''`. */
  function QuotedName(text: string): string
  {
    match QuoteFrom(text, 0)
    case None => ""
    case Some(a) =>
      match QuoteFrom(text, a + 1)
      case None => text[a + 1..]
      case Some(b) => text[a + 1..b]
  }

  /** The name is empty when the text has no quote; otherwise it is what follows the
      first quote, up to the next quote or to the end, and holds no quote. */
  lemma QuotedNameShape(text: string, a: nat)
    requires a < |text| && text[a] == '\'' && forall t :: 0 <= t < a ==> text[t] != '\''
    ensures var v := QuotedName(text);
            && StartsAt(text, v, a + 1)
            && (a + 1 + |v| == |text| || text[a + 1 + |v|] == '\'')
            && forall t :: 0 <= t < |v| ==> v[t] != '\''
  {
    assert QuoteFrom(text, 0) == Some(a);
  }

  lemma QuotedNameNone(text: string)
    requires forall t :: 0 <= t < |text| ==> text[t] != '\''
    ensures QuotedName(text) == ""
  {
  }

  /** The issue a message gives: one for an unused-variable message with a name. */
  function EntryOf(path: string, m: Message): seq<Issue>
  {
    var v := QuotedName(TextOf(m));
    if HasRule(m, UnusedVarsRule) && v != "" then [Issue(path, LineOf(m), ColumnOf(m), v)] else []
  }

  /** What the messages give, in order. */
  function Gather(msgs: seq<Message>, entry: Message -> seq<Issue>): seq<Issue>
  {
    if msgs == [] then [] else Gather(msgs[..|msgs| - 1], entry) + entry(msgs[|msgs| - 1])
  }

  /** The issues of one file result's messages, in order. */
  function IssuesIn(path: string, msgs: seq<Message>): seq<Issue>
  {
    Gather(msgs, m => EntryOf(path, m))
  }

  lemma {:induction false} GatherHas(msgs: seq<Message>, entry: Message -> seq<Issue>, x: Issue)
    ensures x in Gather(msgs, entry) <==> exists j :: 0 <= j < |msgs| && x in entry(msgs[j])
  {
    if msgs != [] {
      var init := msgs[..|msgs| - 1];
      var last := msgs[|msgs| - 1];
      GatherHas(init, entry, x);
      assert Gather(msgs, entry) == Gather(init, entry) + entry(last);
      assert x in Gather(msgs, entry) <==> x in Gather(init, entry) || x in entry(last);
      if exists j :: 0 <= j < |init| && x in entry(init[j]) {
        var j :| 0 <= j < |init| && x in entry(init[j]);
        assert msgs[j] == init[j];
      }
      if exists j :: 0 <= j < |msgs| && x in entry(msgs[j]) {
        var j :| 0 <= j < |msgs| && x in entry(msgs[j]);
        if j < |init| {
          assert init[j] == msgs[j];
        }
      }
    }
  }

  lemma IssuesInSnoc(path: string, msgs: seq<Message>, j: nat)
    requires j < |msgs|
    ensures IssuesIn(path, msgs[..j + 1]) == IssuesIn(path, msgs[..j]) + EntryOf(path, msgs[j])
  {
    assert msgs[..j + 1][..j] == msgs[..j];
  }

  /** The issues of the whole report, file result after file result. */
  function IssuesOf(report: seq<FileReport>): seq<Issue>
  {
    if report == [] then []
    else
      var r := report[|report| - 1];
      IssuesOf(report[..|report| - 1]) + IssuesIn(PathOf(r), r.messages)
  }

  /** Message j of file result i gives issue x. */
  predicate Reports(report: seq<FileReport>, i: nat, j: nat, x: Issue)
    requires i < |report| && j < |report[i].messages|
  {
    x in EntryOf(PathOf(report[i]), report[i].messages[j])
  }

  lemma IssuesInHas(path: string, msgs: seq<Message>, x: Issue)
    ensures x in IssuesIn(path, msgs) <==> exists j :: 0 <= j < |msgs| && x in EntryOf(path, msgs[j])
  {
    GatherHas(msgs, m => EntryOf(path, m), x);
  }

  /** An issue listed for the earlier file results stays listed. */
  lemma ListedGrows(report: seq<FileReport>, x: Issue)
    requires report != [] && x in IssuesOf(report[..|report| - 1])
    ensures x in IssuesOf(report)
  {
  }

  /** An issue given by a message of the last file result is listed. */
  lemma ReportedLast(report: seq<FileReport>, j: nat, x: Issue)
    requires report != [] && j < |report[|report| - 1].messages|
    requires x in EntryOf(PathOf(report[|report| - 1]), report[|report| - 1].messages[j])
    ensures x in IssuesOf(report)
  {
    var r := report[|report| - 1];
    IssuesInHas(PathOf(r), r.messages, x);
    assert x in IssuesIn(PathOf(r), r.messages);
  }

  /** Every message that gives an issue has it listed. */
  lemma {:induction false} ReportedListed(report: seq<FileReport>, i: nat, j: nat, x: Issue)
    requires i < |report| && j < |report[i].messages| && Reports(report, i, j, x)
    ensures x in IssuesOf(report)
  {
    var n := |report| - 1;
    if i < n {
      var init := report[..n];
      assert init[i] == report[i];
      ReportedListed(init, i, j, x);
      ListedGrows(report, x);
    } else {
      ReportedLast(report, j, x);
    }
  }

  /** Every listed issue comes from a message that gives it. */
  lemma {:induction false} ListedReported(report: seq<FileReport>, x: Issue)
    requires x in IssuesOf(report)
    ensures exists i, j :: 0 <= i < |report| && 0 <= j < |report[i].messages| && Reports(report, i, j, x)
  {
    var init := report[..|report| - 1];
    var r := report[|report| - 1];
    if x in IssuesOf(init) {
      ListedReported(init, x);
      var i, j :| 0 <= i < |init| && 0 <= j < |init[i].messages| && Reports(init, i, j, x);
      assert init[i] == report[i];
      assert Reports(report, i, j, x);
    } else {
      IssuesInHas(PathOf(r), r.messages, x);
      var j :| 0 <= j < |r.messages| && x in EntryOf(PathOf(r), r.messages[j]);
      var k := |report| - 1;
      assert report[k] == r;
      assert Reports(report, k, j, x);
    }
  }

  /** An issue is listed exactly when some unused-variable message with a quoted name gives it. */
  lemma {:induction false} IssuesOfReported(report: seq<FileReport>, x: Issue)
    ensures x in IssuesOf(report) <==>
            exists i, j :: 0 <= i < |report| && 0 <= j < |report[i].messages| && Reports(report, i, j, x)
  {
    if x in IssuesOf(report) {
      ListedReported(report, x);
    }
    if exists i, j :: 0 <= i < |report| && 0 <= j < |report[i].messages| && Reports(report, i, j, x) {
      var i, j :| 0 <= i < |report| && 0 <= j < |report[i].messages| && Reports(report, i, j, x);
      ReportedListed(report, i, j, x);
    }
  }

  /** `get_eslint_issues`, given the linter's output (`None` when it is not JSON). */
  method GetEslintIssues(output: Option<seq<FileReport>>) returns (issues: seq<Issue>)
    ensures output.None? ==> issues == []
    ensures output.Some? ==> issues == IssuesOf(output.value)
  {
    issues := [];
    if output.None? {
      return;
    }
    var report := output.value;
    for i := 0 to |report|
      invariant issues == IssuesOf(report[..i])
    {
      assert report[..i + 1][..i] == report[..i];
      var filePath := PathOf(report[i]);
      var msgs := report[i].messages;
      ghost var before := issues;
      for j := 0 to |msgs|
        invariant issues == before + IssuesIn(filePath, msgs[..j])
      {
        IssuesInSnoc(filePath, msgs, j);
        var m := msgs[j];
        if HasRule(m, UnusedVarsRule) {
          var variable := QuotedName(TextOf(m));
          if variable != "" {
            issues := issues + [Issue(filePath, LineOf(m), ColumnOf(m), variable)];
          }
        }
      }
      assert msgs[..|msgs|] == msgs;
    }
    assert report[..|report|] == report;
  }

  // ---------------------------------------------------------------------------
  // Grouping the names by file

  /** `issues_by_file`: each file's names, in the order of its issues. */
  type Groups = Dict<string, seq<string>>

  function GroupByFile(issues: seq<Issue>): Groups
  {
    if issues == [] then []
    else
      var d := GroupByFile(issues[..|issues| - 1]);
      var x := issues[|issues| - 1];
      Put(d, x.file, Get(d, x.file, []) + [x.variable])
  }

  /** The names of the issues in `file`, in order, repeats included. */
  function VariablesOf(issues: seq<Issue>, file: string): seq<string>
  {
    if issues == [] then []
    else
      var x := issues[|issues| - 1];
      VariablesOf(issues[..|issues| - 1], file) + (if x.file == file then [x.variable] else [])
  }

  /** The files of the issues, each once, in the order they first occur. */
  function FirstFiles(issues: seq<Issue>): seq<string>
  {
    if issues == [] then []
    else
      var prev := FirstFiles(issues[..|issues| - 1]);
      var f := issues[|issues| - 1].file;
      if f in prev then prev else prev + [f]
  }

  /** Every file's list holds exactly its issues' names, in order. */
  lemma {:induction false} GroupVariables(issues: seq<Issue>, file: string)
    ensures Get(GroupByFile(issues), file, []) == VariablesOf(issues, file)
  {
    if issues != [] {
      var init := issues[..|issues| - 1];
      var x := issues[|issues| - 1];
      var d := GroupByFile(init);
      GroupVariables(init, file);
      GetPut(d, x.file, Get(d, x.file, []) + [x.variable], file, []);
      if x.file == file {
        GroupVariables(init, x.file);
      }
    }
  }

  /** The keys are the files in order of first occurrence, none twice. */
  lemma {:induction false} GroupKeys(issues: seq<Issue>)
    ensures Keys(GroupByFile(issues)) == FirstFiles(issues)
    ensures Distinct(GroupByFile(issues))
  {
    if issues != [] {
      var init := issues[..|issues| - 1];
      var x := issues[|issues| - 1];
      var d := GroupByFile(init);
      GroupKeys(init);
      PutKeys(d, x.file, Get(d, x.file, []) + [x.variable]);
      DistinctPut(d, x.file, Get(d, x.file, []) + [x.variable]);
    }
  }

  /** Every issue's name lands in exactly one list: the lists' lengths add up to the number of issues. */
  lemma {:induction false} GroupSizes(issues: seq<Issue>)
    ensures SumBy(GroupByFile(issues), (vs: seq<string>) => |vs|) == |issues|
  {
    if issues != [] {
      var init := issues[..|issues| - 1];
      var x := issues[|issues| - 1];
      var d := GroupByFile(init);
      GroupSizes(init);
      SumByPut(d, x.file, Get(d, x.file, []) + [x.variable], [], (vs: seq<string>) => |vs|);
    }
  }

  /** The grouping loop of `fix_unused_vars`. */
  method GroupIssues(issues: seq<Issue>) returns (issuesByFile: Groups)
    ensures issuesByFile == GroupByFile(issues)
  {
    issuesByFile := [];
    for i := 0 to |issues|
      invariant issuesByFile == GroupByFile(issues[..i])
    {
      assert issues[..i + 1][..i] == issues[..i];
      var filePath := issues[i].file;
      ghost var d := issuesByFile;
      if filePath !in Keys(issuesByFile) {
        GetMissing(issuesByFile, filePath, []);
        issuesByFile := Put(issuesByFile, filePath, []);
        GetPut(d, filePath, [], filePath, []);
      }
      assert Get(issuesByFile, filePath, []) == Get(d, filePath, []);
      PutTwice(d, filePath, [], Get(d, filePath, []) + [issues[i].variable]);
      issuesByFile := Put(issuesByFile, filePath, Get(issuesByFile, filePath, []) + [issues[i].variable]);
    }
    assert issues[..|issues|] == issues;
  }

  // ---------------------------------------------------------------------------
  // The nine declaration patterns

  /** `\s*[c1c2...]`-style one-character class. */
  function AnyOf(cs: string): Atom { One(Class(OneOf(cs))) }

  /** `[^c]*?` */
  function LazyAllBut(c: char): Atom { One(Run(AllBut(c), 0, true)) }

  /** The patterns for name v, in the order they are applied; each captures the text
      before the name as group 1, the name as group 2 and the text after it as group 3. */
  function UnusedRules(v: string): seq<Rule>
  {
    var name := Exactly(v);
    [ // const|let|var declarations: the blanks after the keyword become one space
      DeclarationRule(v),
      // function parameters
      Rule([Either([[Lit("(")], [Lit(","), Run(Space, 0, false)]]), name, Spaces, AnyOf(":),")],
           [(0, 1), (1, 2), (2, 4)], Underscored()),
      // destructuring
      Rule([Exactly("{"), LazyAllBut('}'), name, Spaces, AnyOf(",}")],
           [(0, 2), (2, 3), (3, 5)], Underscored()),
      // function declarations
      Rule([Exactly("function"), SomeSpace, name, Spaces, Exactly("(")],
           [(0, 2), (2, 3), (3, 5)], Underscored()),
      // named imports
      Rule([Exactly("import"), SomeSpace, Exactly("{"), LazyAllBut('}'), name, Spaces, AnyOf(",}")],
           [(0, 4), (4, 5), (5, 7)], Underscored()),
      // default imports
      Rule([Exactly("import"), SomeSpace, name, SomeSpace, Exactly("from")],
           [(0, 2), (2, 3), (3, 5)], Underscored()),
      // class properties: the blanks after the modifier become one space
      Rule([OneWordOf(["private", "protected", "public"]), SomeSpace, name, Spaces, AnyOf(":=")],
           [(0, 1), (2, 3), (3, 5)], [Group(1), Verbatim(" _"), Group(2), Group(3)]),
      // arrow function parameters
      Rule([Exactly("("), Spaces, name, Spaces, Exactly(")"), Spaces, Exactly("=>")],
           [(0, 2), (2, 3), (3, 7)], Underscored()),
      // method parameters
      Rule([Exactly("method("), LazyAllBut(')'), name, Spaces, AnyOf(",)")],
           [(0, 2), (2, 3), (3, 5)], Underscored())
    ]
  }

  /** `(const|let|var)\s+(v)(\s*[:=]|\s+in\s+|\s+of\s+)` with `\1 _\2\3`. */
  function DeclarationRule(v: string): Rule
  {
    Rule([OneWordOf(["const", "let", "var"]), SomeSpace, Exactly(v), DeclarationEnd()],
         [(0, 1), (2, 3), (3, 4)], [Group(1), Verbatim(" _"), Group(2), Group(3)])
  }

  /** `(\s*[:=]|\s+in\s+|\s+of\s+)` */
  function DeclarationEnd(): Atom
  {
    Either([[Run(Space, 0, false), Class(OneOf(":="))],
            [Run(Space, 1, false), Lit("in"), Run(Space, 1, false)],
            [Run(Space, 1, false), Lit("of"), Run(Space, 1, false)]])
  }

  /** `\1_\2\3` */
  function Underscored(): seq<Part> { [Group(1), Verbatim("_"), Group(2), Group(3)] }

  /** Where each pattern has its name atom (group 2). */
  function NameAtom(k: nat): nat
    requires k < 9
  {
    [2, 1, 2, 2, 4, 2, 2, 2, 2][k]
  }

  /** The boundaries of a match never go backwards. */
  lemma {:induction false} TraceOrdered(atoms: seq<Atom>, s: string, w: seq<nat>, i: nat, j: nat)
    requires Trace(atoms, s, w) && i <= j < |w|
    ensures w[i] <= w[j]
    decreases j - i
  {
    if i < j {
      TraceOrdered(atoms, s, w, i, j - 1);
      TraceStep(atoms, s, w, j - 1);
    }
  }

  /** Each atom ends no earlier than it starts. */
  lemma TraceStep(atoms: seq<Atom>, s: string, w: seq<nat>, k: nat)
    requires Trace(atoms, s, w) && k < |atoms|
    ensures w[k] <= w[k + 1]
  {
    assert w[k + 1] in AtomEnds(atoms[k], s, w[k]);
  }

  /** Group 2 of a match is the name itself, between groups 1 and 3. */
  lemma {:induction false} NameGroup(r: Rule, name: string, a: nat, s: string, w: seq<nat>)
    requires 0 < a < |r.atoms| && r.atoms[a] == Exactly(name)
    requires r.groups == [(0, a), (a, a + 1), (a + 1, |r.atoms|)]
    requires Trace(r.atoms, s, w)
    ensures w[0] <= w[a] && w[a] + |name| == w[a + 1] <= w[|r.atoms|] <= |s|
    ensures StartsAt(s, name, w[a])
    ensures GroupText(r.groups, s, w, 1) == s[w[0]..w[a]]
    ensures GroupText(r.groups, s, w, 2) == name
    ensures GroupText(r.groups, s, w, 3) == s[w[a + 1]..w[|r.atoms|]]
  {
    TraceOrdered(r.atoms, s, w, 0, a);
    TraceOrdered(r.atoms, s, w, a + 1, |r.atoms|);
    assert w[a + 1] in AtomEnds(r.atoms[a], s, w[a]);
  }

  /** A `\1_\2\3` rewrite gives back the matched text with `_` before the name. */
  lemma {:induction false} PlainRewrite(r: Rule, name: string, a: nat, s: string, w: seq<nat>)
    requires 0 < a < |r.atoms| && r.atoms[a] == Exactly(name)
    requires r.groups == [(0, a), (a, a + 1), (a + 1, |r.atoms|)]
    requires r.template == Underscored()
    requires Trace(r.atoms, s, w)
    ensures w[0] <= w[a] && w[a] + |name| <= w[|r.atoms|] <= |s| && StartsAt(s, name, w[a])
    ensures Replacement(r, s, w) == s[w[0]..w[a]] + "_" + s[w[a]..w[|r.atoms|]]
  {
    NameGroup(r, name, a, s, w);
    var g1, g3 := s[w[0]..w[a]], s[w[a + 1]..w[|r.atoms|]];
    assert s[w[a]..w[|r.atoms|]] == name + g3;
    var t := r.template;
    assert Expand(t[3..], r.groups, s, w) == g3;
    assert Expand(t[2..], r.groups, s, w) == name + g3;
    assert Expand(t[1..], r.groups, s, w) == "_" + (name + g3);
  }

  /** An end of `\s+`: a non-empty run of blanks. */
  lemma SpaceRun(s: string, i: nat, e: nat)
    requires i <= |s| && e in AtomEnds(SomeSpace, s, i)
    ensures i < e <= |s| && forall t :: i <= t < e ==> InClass(Space, s[t])
  {
    var j := RunEnd(Space, s, i);
    assert e in Down(j, i + 1);
  }

  /** An end of a literal: the literal occurs there. */
  lemma LiteralEnd(t: string, s: string, i: nat, e: nat)
    requires i <= |s| && e in AtomEnds(Exactly(t), s, i)
    ensures e == i + |t| && StartsAt(s, t, i)
  {
  }

  /** The template `\1 _\2\3` filled in. */
  lemma KeywordTemplate(r: Rule, s: string, w: seq<nat>)
    requires r.template == [Group(1), Verbatim(" _"), Group(2), Group(3)]
    ensures Replacement(r, s, w) ==
            GroupText(r.groups, s, w, 1) + " _" + GroupText(r.groups, s, w, 2) + GroupText(r.groups, s, w, 3)
  {
    var t := r.template;
    var g1, g2, g3 := GroupText(r.groups, s, w, 1), GroupText(r.groups, s, w, 2), GroupText(r.groups, s, w, 3);
    assert Expand(t[3..], r.groups, s, w) == g3;
    assert Expand(t[2..], r.groups, s, w) == g2 + g3;
    assert Expand(t[1..], r.groups, s, w) == " _" + (g2 + g3);
  }

  /** A match of a keyword, blanks and the name: the blanks are a non-empty run and
      the name follows them. */
  lemma KeywordTrace(atoms: seq<Atom>, name: string, s: string, w: seq<nat>)
    requires 2 < |atoms| && atoms[1] == SomeSpace && atoms[2] == Exactly(name)
    requires Trace(atoms, s, w)
    ensures w[0] <= w[1] < w[2] && w[3] == w[2] + |name| <= w[|atoms|] <= |s| && StartsAt(s, name, w[2])
    ensures forall t :: w[1] <= t < w[2] ==> InClass(Space, s[t])
  {
    TraceOrdered(atoms, s, w, 3, |atoms|);
    TraceOrdered(atoms, s, w, 0, 1);
    assert w[2] in AtomEnds(atoms[1], s, w[1]);
    SpaceRun(s, w[1], w[2]);
    assert w[3] in AtomEnds(atoms[2], s, w[2]);
    LiteralEnd(name, s, w[2], w[3]);
  }

  /** A `\1 _\2\3` rewrite after a keyword and blanks gives the keyword, one space,
      `_` and the matched text from the name on. */
  lemma {:induction false} KeywordRewrite(r: Rule, name: string, s: string, w: seq<nat>)
    requires 2 < |r.atoms| && r.atoms[1] == SomeSpace && r.atoms[2] == Exactly(name)
    requires r.groups == [(0, 1), (2, 3), (3, |r.atoms|)]
    requires r.template == [Group(1), Verbatim(" _"), Group(2), Group(3)]
    requires Trace(r.atoms, s, w)
    ensures w[0] <= w[1] < w[2] && w[2] + |name| <= w[|r.atoms|] <= |s| && StartsAt(s, name, w[2])
    ensures forall t :: w[1] <= t < w[2] ==> InClass(Space, s[t])
    ensures Replacement(r, s, w) == s[w[0]..w[1]] + " _" + s[w[2]..w[|r.atoms|]]
  {
    var n := |r.atoms|;
    KeywordTrace(r.atoms, name, s, w);
    KeywordTemplate(r, s, w);
    assert GroupText(r.groups, s, w, 1) == s[w[0]..w[1]];
    assert GroupText(r.groups, s, w, 2) == name;
    assert GroupText(r.groups, s, w, 3) == s[w[3]..w[n]];
    assert s[w[2]..w[n]] == name + s[w[3]..w[n]];
  }

  /** Every rewrite of the name puts one underscore in front of it: the seven patterns
      with template `\1_\2\3` give back the matched text with `_` inserted before the
      name; the two keyword patterns give the keyword, one space, `_`, and the matched
      text from the name on (the blanks after the keyword become one space). */
  lemma {:induction false} UnderscoreInserted(name: string, k: nat, s: string, w: seq<nat>)
    requires k < 9 && Trace(UnusedRules(name)[k].atoms, s, w)
    ensures var r := UnusedRules(name)[k];
            var p := w[NameAtom(k)];
            var end := w[|r.atoms|];
            && w[0] <= p && p + |name| <= end <= |s|
            && StartsAt(s, name, p)
            && (k != 0 && k != 6 ==> Replacement(r, s, w) == s[w[0]..p] + "_" + s[p..end])
            && (k == 0 || k == 6 ==>
                  && w[0] <= w[1] < p
                  && (forall t :: w[1] <= t < p ==> InClass(Space, s[t]))
                  && Replacement(r, s, w) == s[w[0]..w[1]] + " _" + s[p..end])
  {
    var r := UnusedRules(name)[k];
    if k == 0 || k == 6 {
      KeywordRewrite(r, name, s, w);
    } else {
      PlainRewrite(r, name, NameAtom(k), s, w);
    }
  }

  /** The text after one name: unchanged when `_name` already occurs, otherwise the
      nine patterns applied in order. */
  function RenameStep(s: string, v: string): string {
    if Contains(s, "_" + v) then s else ApplyRules(UnusedRules(v), s).0
  }

  /** A name whose underscored form already occurs leaves the text alone; a name that
      changes the text had one of its patterns replace something. */
  lemma RenameSkips(s: string, v: string)
    ensures Contains(s, "_" + v) ==> RenameStep(s, v) == s
    ensures RenameStep(s, v) != s ==> !Contains(s, "_" + v) && ApplyRules(UnusedRules(v), s).1 > 0
  {
  }

  /** A file's text after its names, and whether some name left it different from the
      text read (`file_modified`). */
  function FixFileVars(content: string, vars: seq<string>): (string, bool)
  {
    if vars == [] then (content, false)
    else
      var prev := FixFileVars(content, vars[..|vars| - 1]);
      var v := vars[|vars| - 1];
      if Contains(prev.0, "_" + v) then prev
      else
        var s := ApplyRules(UnusedRules(v), prev.0).0;
        (s, prev.1 || s != content)
  }

  // ---------------------------------------------------------------------------
  // The worked case: `const unused = 5;`

  /** `\s*[:=]` after `unused` in `const unused = 5;` ends only after the `=`. */
  lemma AssignAltEnds()
    ensures SeqEnds([Run(Space, 0, false), Class(OneOf(":="))], "const unused = 5;", 12) == [14]
  {
    var c := "const unused = 5;";
    var alt: seq<Piece> := [Run(Space, 0, false), Class(OneOf(":="))];
    assert c[12] == ' ' && c[13] == '=';
    assert RunEnd(Space, c, 13) == 13;
    assert RunEnd(Space, c, 12) == 13;
    assert PieceEnds(alt[0], c, 12) == [13, 12];
    assert alt[1..] == [Class(OneOf(":="))];
    assert alt[1..][1..] == [];
    assert PieceEnds(alt[1..][0], c, 13) == [14];
    assert SeqEnds(alt[1..][1..], c, 14) == [14];
    assert EndsFrom([14], alt[1..], c, 13) == [14];
    assert SeqEnds(alt[1..], c, 13) == [14];
    assert SeqEnds(alt[1..], c, 12) == [];
    assert EndsFrom([12], alt, c, 12) == [];
    assert EndsFrom([13, 12], alt, c, 12) == [14];
  }

  /** `\s+in\s+` and `\s+of\s+` find no end after `unused` in `const unused = 5;`. */
  lemma WordAltMisses(w: string)
    requires |w| == 2 && w[0] != '='
    ensures SeqEnds([Run(Space, 1, false), Lit(w), Run(Space, 1, false)], "const unused = 5;", 12) == []
  {
    var c := "const unused = 5;";
    var alt: seq<Piece> := [Run(Space, 1, false), Lit(w), Run(Space, 1, false)];
    assert c[12] == ' ' && c[13] == '=';
    assert RunEnd(Space, c, 13) == 13;
    assert RunEnd(Space, c, 12) == 13;
    assert PieceEnds(alt[0], c, 12) == [13];
    assert !StartsAt(c, w, 13) by {
      assert c[13..15][0] == '=';
    }
    assert alt[1..][0] == Lit(w);
    assert PieceEnds(alt[1..][0], c, 13) == [];
    assert SeqEnds(alt[1..], c, 13) == [];
    assert EndsFrom([], alt, c, 12) == [];
    assert EndsFrom([13], alt, c, 12) == [];
  }

  /** The alternation after `unused` in `const unused = 5;` ends only after the `=`. */
  lemma DeclarationEndEnds()
    ensures AtomEnds(DeclarationEnd(), "const unused = 5;", 12) == [14]
  {
    var c := "const unused = 5;";
    var alts := DeclarationEnd().alts;
    AssignAltEnds();
    WordAltMisses("in");
    WordAltMisses("of");
    assert alts[1..][1..][1..] == [];
    assert AltEnds(alts[1..][1..], c, 12) == [];
    assert AltEnds(alts[1..], c, 12) == [];
  }

  /** `(const|let|var)` at the start of `const unused = 5;` ends after `const`. */
  lemma ConstWordEnds()
    ensures AtomEnds(OneWordOf(["const", "let", "var"]), "const unused = 5;", 0) == [5]
  {
    var c := "const unused = 5;";
    var alts := OneWordOf(["const", "let", "var"]).alts;
    assert alts == [[Lit("const")], [Lit("let")], [Lit("var")]];
    assert c[0..5] == "const";
    assert SeqEnds(alts[0], c, 0) == [5];
    assert c[0..3][0] == 'c';
    assert SeqEnds(alts[1], c, 0) == [];
    assert SeqEnds(alts[2], c, 0) == [];
    assert alts[1..][1..][1..] == [];
  }

  /** The alternation matches after `unused` in `const unused = 5;`, up to the `=`. */
  lemma EndMatch()
    ensures MatchAt([DeclarationEnd()], "const unused = 5;", 12) == Some([12] + [14])
  {
    var p3: seq<Atom> := [DeclarationEnd()];
    DeclarationEndEnds();
    assert p3[1..] == [];
    MatchAtSingleEnd(p3, "const unused = 5;", 12, 14, [14]);
  }

  /** The name and the alternation match from the name on. */
  lemma NameAndEndMatch()
    ensures MatchAt([Exactly("unused"), DeclarationEnd()], "const unused = 5;", 6) == Some([6] + ([12] + [14]))
  {
    var p2: seq<Atom> := [Exactly("unused"), DeclarationEnd()];
    EndMatch();
    NameEnds();
    assert p2[1..] == [DeclarationEnd()];
    MatchAtSingleEnd(p2, "const unused = 5;", 6, 12, [12] + [14]);
  }

  /** `unused` in `const unused = 5;` ends where the name does. */
  lemma NameEnds()
    ensures AtomEnds(Exactly("unused"), "const unused = 5;", 6) == [12]
  {
    assert "const unused = 5;"[6..12] == "unused";
  }

  /** `\s+` after `const` in `const unused = 5;` takes the one blank. */
  lemma BlankEnds()
    ensures AtomEnds(SomeSpace, "const unused = 5;", 5) == [6]
  {
    var c := "const unused = 5;";
    assert c[5] == ' ' && c[6] == 'u';
    assert RunEnd(Space, c, 6) == 6;
    assert RunEnd(Space, c, 5) == 6;
  }

  /** The blank, the name and the alternation match from the blank on. */
  lemma SpaceNameAndEndMatch()
    ensures MatchAt([SomeSpace, Exactly("unused"), DeclarationEnd()], "const unused = 5;", 5) == Some([5] + ([6] + ([12] + [14])))
  {
    var p1: seq<Atom> := [SomeSpace, Exactly("unused"), DeclarationEnd()];
    NameAndEndMatch();
    BlankEnds();
    assert p1[1..] == [Exactly("unused"), DeclarationEnd()];
    MatchAtSingleEnd(p1, "const unused = 5;", 5, 6, [6] + ([12] + [14]));
  }

  /** The declaration pattern for `unused` matches `const unused = 5;` from the start
      up to the `=`. */
  lemma ConstUnusedHit(c: string)
    requires c == "const unused = 5;"
    ensures Hit(DeclarationRule("unused"), c, 0) == Some([0] + ([5] + ([6] + ([12] + [14]))))
  {
    var atoms := DeclarationRule("unused").atoms;
    SpaceNameAndEndMatch();
    ConstWordEnds();
    assert atoms[1..] == [SomeSpace, Exactly("unused"), DeclarationEnd()];
    MatchAtSingleEnd(atoms, c, 0, 5, [5] + ([6] + ([12] + [14])));
  }

  /** The declaration pattern is at least as long as the name. */
  lemma DeclarationMin(v: string)
    ensures PatternMin(DeclarationRule(v).atoms) >= |v|
  {
    var atoms := DeclarationRule(v).atoms;
    assert atoms[2..][0] == Exactly(v);
    assert PatternMin(atoms[2..]) >= |v|;
    assert atoms[1..][1..] == atoms[2..];
    assert PatternMin(atoms[1..]) >= |v|;
  }

  /** The declaration pattern turns `const unused = 5;` into `const _unused = 5;`,
      with one replacement. */
  lemma ConstUnusedSub()
    ensures Sub(DeclarationRule("unused"), "const unused = 5;") == ("const _unused = 5;", 1)
  {
    var c := "const unused = 5;";
    var r := DeclarationRule("unused");
    var v: seq<nat> := [0] + ([5] + ([6] + ([12] + [14])));
    ConstUnusedHit(c);
    assert |v| == 5 && v[0] == 0 && v[1] == 5 && v[2] == 6 && v[4] == 14;
    SubFromHit(r, c, 0, v);
    DeclarationMin("unused");
    SubFromShort(r, c, 14);
    KeywordRewrite(r, "unused", c, v);
    ConstUnusedPieces();
  }

  lemma ConstUnusedPieces()
    ensures var c := "const unused = 5;";
            c[0..5] + " _" + c[6..14] + c[14..] == "const _unused = 5;"
  {
    var c := "const unused = 5;";
    assert c[0..5] == "const";
    assert c[6..14] == "unused =";
    assert c[14..] == " 5;";
  }

  /** None of the characters `(,:){fipm` occurs in `const _unused = 5;`. */
  lemma RenamedLacks(ch: char)
    requires ch in "(,:){fipm"
    ensures forall j :: 0 <= j < |"const _unused = 5;"| ==> "const _unused = 5;"[j] != ch
  {
  }

  /** Patterns 2 to 9 for `unused` find nothing in `const _unused = 5;`. */
  lemma LaterPatternsMiss(k: nat)
    requires 1 <= k < 9
    ensures !Search(UnusedRules("unused")[k], "const _unused = 5;")
  {
    var s := "const _unused = 5;";
    var r := UnusedRules("unused")[k];
    if k == 1 {
      forall ch | ch in ":)," ensures forall j :: 0 <= j < |s| ==> s[j] != ch {
        RenamedLacks(ch);
      }
      AbsentClassNoSearch(r, s, 3, OneOf(":),"));
    } else if k == 6 {
      var ws := ["private", "protected", "public"];
      RenamedLacks('p');
      forall j | 0 <= j < |ws| ensures !Contains(s, ws[j]) {
        NoFirstChar(s, ws[j]);
      }
      AbsentWordsNoSearch(r, s, 0, ws);
    } else {
      var w := ["", "", "{", "function", "import", "import", "", "(", "method("][k];
      assert r.atoms[0] == Exactly(w);
      LeadingLitMiss(r, w);
    }
  }

  /** A pattern that starts with `{`, `function`, `import`, `(` or `method(` finds
      nothing in `const _unused = 5;`. */
  lemma LeadingLitMiss(r: Rule, w: string)
    requires 0 < |r.atoms| && r.atoms[0] == Exactly(w) && w != [] && w[0] in "(,:){fipm"
    ensures !Search(r, "const _unused = 5;")
  {
    var s := "const _unused = 5;";
    RenamedLacks(w[0]);
    NoFirstChar(s, w);
    AbsentLitNoSearch(r, s, 0, w);
  }

  /** The first pattern for `unused` on `const unused = 5;` (the text and the
      patterns are parameters so that the solver does not evaluate the scan on them). */
  lemma ConstUnusedFirst(c: string, rules: seq<Rule>)
    requires c == "const unused = 5;" && rules == UnusedRules("unused")
    ensures ApplyRules(rules[..1], c) == ("const _unused = 5;", 1)
  {
    assert rules[0] == DeclarationRule("unused");
    assert rules[..0] == [];
    var prev := ApplyRules(rules[..0], c);
    assert prev == (c, 0);
    var step := Sub(rules[0], prev.0);
    ConstUnusedSub();
    assert step == ("const _unused = 5;", 1);
    ApplyRulesPrefix(rules, c, 0);
  }

  /** The nine patterns for `unused` turn `const unused = 5;` into
      `const _unused = 5;`: the first replaces once and the others find nothing. */
  lemma ConstUnusedRules(c: string, rules: seq<Rule>)
    requires c == "const unused = 5;" && rules == UnusedRules("unused")
    ensures ApplyRules(rules, c) == ("const _unused = 5;", 1)
  {
    ConstUnusedFirst(c, rules);
    forall k | 1 <= k < 9 ensures !Search(rules[k], ApplyRules(rules[..1], c).0) {
      LaterPatternsMiss(k);
    }
    assert |rules| == 9;
    ApplyRulesSkips(rules, c, 1, 9);
    assert rules[..9] == rules;
  }

  /** The worked case: `const unused = 5;` flagged `unused` becomes `const _unused = 5;`
      and the file is marked modified; run again, the name is skipped because `_unused`
      already occurs, and nothing changes. */
  lemma ConstUnusedTwice()
    ensures FixFileVars("const unused = 5;", ["unused"]) == ("const _unused = 5;", true)
    ensures FixFileVars("const _unused = 5;", ["unused"]) == ("const _unused = 5;", false)
  {
    ConstUnusedOnce();
    ConstUnusedAgain();
  }

  lemma ConstUnusedOnce()
    ensures FixFileVars("const unused = 5;", ["unused"]) == ("const _unused = 5;", true)
  {
    var c := "const unused = 5;";
    assert ["unused"][..0] == [];
    assert forall j :: 0 <= j < |c| ==> c[j] != '_';
    NoFirstChar(c, "_unused");
    assert "_" + "unused" == "_unused";
    ConstUnusedRules(c, UnusedRules("unused"));
  }

  lemma ConstUnusedAgain()
    ensures FixFileVars("const _unused = 5;", ["unused"]) == ("const _unused = 5;", false)
  {
    var t := "const _unused = 5;";
    assert StartsAt(t, "_unused", 6);
    assert Contains(t, "_unused");
    assert "_" + "unused" == "_unused";
    assert ["unused"][..0] == [];
    assert FixFileVars(t, []) == (t, false);
  }

  /** The text is the names' rewrites one after the other, and a file that is not
      marked modified has its text unchanged. */
  lemma {:induction false} FixFileVarsShape(content: string, vars: seq<string>)
    ensures vars != [] ==>
              FixFileVars(content, vars).0 == RenameStep(FixFileVars(content, vars[..|vars| - 1]).0, vars[|vars| - 1])
    ensures !FixFileVars(content, vars).1 ==> FixFileVars(content, vars).0 == content
  {
    if vars != [] {
      FixFileVarsShape(content, vars[..|vars| - 1]);
    }
  }

  /** A name that was not skipped and left the text different marks the file modified. */
  lemma {:induction false} ChangedMarks(content: string, vars: seq<string>, k: nat)
    requires k < |vars| && Changed(content, vars, k)
    ensures FixFileVars(content, vars).1
  {
    if k < |vars| - 1 {
      ChangedInit(content, vars, k);
      ChangedMarks(content, vars[..|vars| - 1], k);
      FlagStays(content, vars);
    } else {
      LastChangedMarks(content, vars);
    }
  }

  lemma ChangedInit(content: string, vars: seq<string>, k: nat)
    requires k < |vars| - 1 && Changed(content, vars, k)
    ensures Changed(content, vars[..|vars| - 1], k)
  {
    var init := vars[..|vars| - 1];
    assert init[..k] == vars[..k];
    assert init[k] == vars[k];
  }

  /** The last name, when it changed the text, marks the file modified. */
  lemma LastChangedMarks(content: string, vars: seq<string>)
    requires vars != [] && Changed(content, vars, |vars| - 1)
    ensures FixFileVars(content, vars).1
  {
  }

  /** Once marked modified, a file stays marked. */
  lemma FlagStays(content: string, vars: seq<string>)
    requires vars != []
    ensures FixFileVars(content, vars[..|vars| - 1]).1 ==> FixFileVars(content, vars).1
  {
  }

  /** A file marked modified has a name that was not skipped and left the text different. */
  lemma {:induction false} MarkedChanged(content: string, vars: seq<string>)
    requires FixFileVars(content, vars).1
    ensures exists k :: 0 <= k < |vars| && Changed(content, vars, k)
  {
    var init := vars[..|vars| - 1];
    if FixFileVars(content, init).1 {
      MarkedChanged(content, init);
      var k :| 0 <= k < |init| && Changed(content, init, k);
      ChangedPrefix(content, vars, |init|, k);
    } else {
      assert vars[..|init|] == init;
      assert Changed(content, vars, |init|);
    }
  }

  /** A file is marked modified exactly when, after some name that was not skipped, its
      text differed from the text read. */
  lemma {:induction false} FixFileVarsFlag(content: string, vars: seq<string>)
    ensures FixFileVars(content, vars).1 <==>
            exists k :: 0 <= k < |vars| && Changed(content, vars, k)
  {
    if FixFileVars(content, vars).1 {
      MarkedChanged(content, vars);
    }
    if exists k :: 0 <= k < |vars| && Changed(content, vars, k) {
      var k :| 0 <= k < |vars| && Changed(content, vars, k);
      ChangedMarks(content, vars, k);
    }
  }

  /** Name k was not skipped and left the text different from the text read. */
  predicate Changed(content: string, vars: seq<string>, k: nat)
    requires k < |vars|
  {
    var before := FixFileVars(content, vars[..k]).0;
    !Contains(before, "_" + vars[k]) && ApplyRules(UnusedRules(vars[k]), before).0 != content
  }

  lemma ChangedPrefix(content: string, vars: seq<string>, n: nat, k: nat)
    requires k < n <= |vars|
    ensures Changed(content, vars[..n], k) <==> Changed(content, vars, k)
  {
    assert vars[..n][..k] == vars[..k];
    assert vars[..n][k] == vars[k];
  }

  /** The inner loop over the patterns: `modified_content = pattern.sub(replacement, modified_content)`. */
  method ApplyPatterns(rules: seq<Rule>, content: string) returns (modifiedContent: string)
    ensures modifiedContent == ApplyRules(rules, content).0
  {
    modifiedContent := content;
    for k := 0 to |rules|
      invariant modifiedContent == ApplyRules(rules[..k], content).0
    {
      assert rules[..k + 1][..k] == rules[..k];
      modifiedContent := Sub(rules[k], modifiedContent).0;
    }
    assert rules[..|rules|] == rules;
  }

  /** The loop over one file's names. */
  method FixFile(content: string, variables: seq<string>) returns (modifiedContent: string, fileModified: bool)
    ensures (modifiedContent, fileModified) == FixFileVars(content, variables)
  {
    modifiedContent := content;
    fileModified := false;
    for i := 0 to |variables|
      invariant (modifiedContent, fileModified) == FixFileVars(content, variables[..i])
    {
      assert variables[..i + 1][..i] == variables[..i];
      var variable := variables[i];
      if Contains(modifiedContent, "_" + variable) {
        continue;
      }
      modifiedContent := ApplyPatterns(UnusedRules(variable), modifiedContent);
      if modifiedContent != content {
        fileModified := true;
      }
    }
    assert variables[..|variables|] == variables;
  }

  // ---------------------------------------------------------------------------
  // The files

  /** The existing files and their texts. */
  type FileSystem = map<string, string>

  /** The loop over the files: the files afterwards and the set of files written. */
  function FixFiles(groups: Groups, fs: FileSystem): (r: (FileSystem, set<string>))
  {
    if groups == [] then (fs, {})
    else
      var prev := FixFiles(groups[..|groups| - 1], fs);
      var (file, vars) := groups[|groups| - 1];
      if file !in prev.0 then prev
      else
        var fixed := FixFileVars(prev.0[file], vars);
        if fixed.1 then (prev.0[file := fixed.0], prev.1 + {file}) else prev
  }

  /** With one entry per file: no file is created, a file is written exactly when it
      exists, has names and is marked modified, it then holds its rewritten text, and
      every other file keeps its text. */
  lemma {:induction false} FixFilesSpec(groups: Groups, fs: FileSystem, f: string)
    requires Distinct(groups)
    ensures FixFiles(groups, fs).0.Keys == fs.Keys
    ensures f in FixFiles(groups, fs).1 <==>
            f in fs && f in Keys(groups) && FixFileVars(fs[f], Get(groups, f, [])).1
    ensures f in fs ==>
            FixFiles(groups, fs).0[f] ==
              if f in FixFiles(groups, fs).1 then FixFileVars(fs[f], Get(groups, f, [])).0 else fs[f]
  {
    if groups != [] {
      var init := groups[..|groups| - 1];
      var (file, vars) := groups[|groups| - 1];
      DistinctLast(groups);
      FixFilesSpec(init, fs, f);
      FixFilesSpec(init, fs, file);
      assert Keys(groups) == Keys(init) + [file];
      if file !in Keys(init) {
        GetMissing(init, file, []);
      }
      assert groups == init + [(file, vars)];
      GetLast(init, file, vars, f, []);
    }
  }

  /** `fix_unused_vars` on a file system: the files afterwards and the set of files written. */
  method FixUnusedVars(issues: seq<Issue>, fs: FileSystem) returns (files: FileSystem, filesModified: set<string>)
    ensures (files, filesModified) == FixFiles(GroupByFile(issues), fs)
  {
    var issuesByFile := GroupIssues(issues);
    files := fs;
    filesModified := {};
    for i := 0 to |issuesByFile|
      invariant (files, filesModified) == FixFiles(issuesByFile[..i], fs)
    {
      assert issuesByFile[..i + 1][..i] == issuesByFile[..i];
      var (filePath, variables) := issuesByFile[i];
      if filePath !in files {
        continue;
      }
      var modifiedContent, fileModified := FixFile(files[filePath], variables);
      if fileModified {
        files := files[filePath := modifiedContent];
        filesModified := filesModified + {filePath};
      }
    }
    assert issuesByFile[..|issuesByFile|] == issuesByFile;
  }
}
