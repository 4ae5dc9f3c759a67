/**
 * The auto-fixer for a directory of TypeScript files: every `.ts`/`.tsx` file first
 * has seventeen `any` patterns rewritten to `unknown`, then the linter is run on it
 * and each variable it reports as unused gets an underscore inserted in front of it,
 * at the reported line and column, when the text there is that name standing alone.
 */
module FixEslintIssues {
  import opened Wrappers
  import opened Text
  import opened Patterns
  import opened LintReport

  // ---------------------------------------------------------------------------
  // Rewriting explicit `any` types

  /** The seventeen substitutions, in the order they are applied. */
  function AnyRules(): seq<Rule>
  {
    seq(17, k requires 0 <= k < 17 => AnyRule(k))
  }

  function AnyRule(k: nat): Rule
    requires k < 17
  {
    var decl := OneWordOf(["const", "let", "var"]);
    match k
    // (name: any)  and  (name: any[])
    case 0 => Rule([Exactly("("), Name, Spaces, Exactly(":"), Spaces, Exactly("any)")], [(1, 2)],
                   [Verbatim("("), Group(1), Verbatim(": unknown)")])
    case 1 => Rule([Exactly("("), Name, Spaces, Exactly(":"), Spaces, Exactly("any[])")], [(1, 2)],
                   [Verbatim("("), Group(1), Verbatim(": unknown[])")])
    // return types
    case 2 => Rule([Exactly(")"), Spaces, Exactly(":"), Spaces, Exactly("any"), Spaces, Exactly("{")], [],
                   [Verbatim("): unknown {")])
    case 3 => Rule([Exactly(")"), Spaces, Exactly(":"), Spaces, Exactly("any[]"), Spaces, Exactly("{")], [],
                   [Verbatim("): unknown[] {")])
    // variable declarations
    case 4 => Rule([decl, SomeSpace, Name, Spaces, Exactly(":"), Spaces, Exactly("any"), Spaces, Exactly("=")],
                   [(0, 1), (2, 3)], [Group(1), Verbatim(" "), Group(2), Verbatim(": unknown =")])
    case 5 => Rule([decl, SomeSpace, Name, Spaces, Exactly(":"), Spaces, Exactly("any[]"), Spaces, Exactly("=")],
                   [(0, 1), (2, 3)], [Group(1), Verbatim(" "), Group(2), Verbatim(": unknown[] =")])
    // properties
    case 6 => Rule([Name, One(Maybe('?')), Exactly(":"), Spaces, Exactly("any;")], [(0, 1)],
                   [Group(1), Verbatim("?: unknown;")])
    case 7 => Rule([Name, One(Maybe('?')), Exactly(":"), Spaces, Exactly("any[];")], [(0, 1)],
                   [Group(1), Verbatim("?: unknown[];")])
    // generic arguments
    case 8 => Literal("<any>", "<unknown>")
    case 9 => Literal("<any[]>", "<unknown[]>")
    // records
    case 10 => Rule([Exactly("Record<string,"), Spaces, Exactly("any>")], [], [Verbatim("Record<string, unknown>")])
    case 11 => Rule([Exactly("Record<number,"), Spaces, Exactly("any>")], [], [Verbatim("Record<number, unknown>")])
    // a parameter followed by a comma
    case 12 => Rule([Name, One(Maybe('?')), Exactly(":"), Spaces, Exactly("any"), Spaces, Exactly(",")],
                    [(0, 4), (5, 7)], [Group(1), Verbatim("unknown"), Group(2)])
    // well-known option bags
    case 13 => OptionBag("context")
    case 14 => OptionBag("options")
    case 15 => OptionBag("data")
    case _ => OptionBag("hash")
  }

  /** `<word>\??:\s*any`, replaced by an optional record of unknowns. */
  function OptionBag(word: string): Rule {
    Rule([Exactly(word), One(Maybe('?')), Exactly(":"), Spaces, Exactly("any")], [],
         [Verbatim(word + "?: Record<string, unknown>")])
  }

  /** The substitution loop: each rule applied to the text the previous ones left. */
  method SubstituteAll(rules: seq<Rule>, content: string) returns (fixed: string, fixes: nat)
    ensures (fixed, fixes) == ApplyRules(rules, content)
  {
    fixed := content;
    fixes := 0;
    for k := 0 to |rules|
      invariant fixed == ApplyRules(rules[..k], content).0
      invariant fixes == ApplyRules(rules[..k], content).1
    {
      assert rules[..k + 1][..k] == rules[..k];
      var step := Sub(rules[k], fixed);
      fixes := fixes + step.1;
      fixed := step.0;
    }
    assert rules[..|rules|] == rules;
  }

  /** `fix_no_explicit_any` on the text of one file: the rewritten text and the number of fixes. */
  method FixNoExplicitAny(content: string) returns (fixed: string, fixes: nat)
    ensures (fixed, fixes) == ApplyRules(AnyRules(), content)
  {
    fixed, fixes := SubstituteAll(AnyRules(), content);
  }

  /** For each substitution, the index of one of its plain-text atoms that holds `any`,
      and that atom's text. */
  function AnyLitAt(k: nat): (nat, string)
    requires k < 17
  {
    match k
    case 0 => (5, "any)")
    case 1 => (5, "any[])")
    case 2 => (4, "any")
    case 3 => (4, "any[]")
    case 4 => (6, "any")
    case 5 => (6, "any[]")
    case 6 => (4, "any;")
    case 7 => (4, "any[];")
    case 8 => (0, "<any>")
    case 9 => (0, "<any[]>")
    case 10 => (2, "any>")
    case 11 => (2, "any>")
    case _ => (4, "any")
  }

  /** Every match of substitution k covers its `any` text. */
  lemma AnyHitHoldsLit(k: nat, s: string, i: nat)
    requires k < 17 && i <= |s| && Hit(AnyRule(k), s, i).Some?
    ensures Contains(s, AnyLitAt(k).1)
  {
    var r := AnyRule(k);
    var v := Hit(r, s, i).value;
    var m := AnyLitAt(k).0;
    var t := AnyLitAt(k).1;
    AnyLitAtom(k);
    LitInTrace(r.atoms, s, v, m, t);
    var at: nat := v[m];
    assert StartsAt(s, t, at);
  }

  /** The `any` text of substitution k is one of its atoms. */
  lemma AnyLitAtom(k: nat)
    requires k < 17
    ensures AnyLitAt(k).0 < |AnyRule(k).atoms| && AnyRule(k).atoms[AnyLitAt(k).0] == One(Lit(AnyLitAt(k).1))
  {
    if k < 8 {
      AnyLitAtomLow(k);
    } else {
      AnyLitAtomHigh(k);
    }
  }

  lemma AnyLitAtomLow(k: nat)
    requires k < 8
    ensures AnyLitAt(k).0 < |AnyRule(k).atoms| && AnyRule(k).atoms[AnyLitAt(k).0] == One(Lit(AnyLitAt(k).1))
  {
  }

  lemma AnyLitAtomHigh(k: nat)
    requires 8 <= k < 17
    ensures AnyLitAt(k).0 < |AnyRule(k).atoms| && AnyRule(k).atoms[AnyLitAt(k).0] == One(Lit(AnyLitAt(k).1))
  {
  }

  /** Each `any` text holds `any`. */
  lemma AnyLitHoldsAny(k: nat)
    requires k < 17
    ensures Contains(AnyLitAt(k).1, "any")
  {
    var t := AnyLitAt(k).1;
    var off: nat := if k == 8 || k == 9 then 1 else 0;
    AnyLetters(t, off);
  }

  /** In a text without `any`, each of the seventeen substitutions replaces nothing. */
  lemma NoAnyNoFix(k: nat, s: string)
    requires k < 17 && !Contains(s, "any")
    ensures Sub(AnyRule(k), s) == (s, 0)
  {
    var r := AnyRule(k);
    SubCountsIffFound(r, s, 0);
    if FindFrom(r, s, 0).Some? {
      AnyHitHoldsLit(k, s, FindFrom(r, s, 0).value);
      AnyLitHoldsAny(k);
      ContainsWithin(s, AnyLitAt(k).1, "any");
    }
  }

  /** The first n substitutions leave a text without `any` as it is, with no fix. */
  lemma {:induction false} NoAnyUnchanged(n: nat, s: string)
    requires n <= 17 && !Contains(s, "any")
    ensures ApplyRules(AnyRules()[..n], s) == (s, 0)
  {
    if n > 0 {
      var rules := AnyRules()[..n];
      assert rules[..n - 1] == AnyRules()[..n - 1];
      NoAnyUnchanged(n - 1, s);
      NoAnyNoFix(n - 1, s);
    }
  }

  /** Running `fix_no_explicit_any` again on its own output fixes nothing, whenever the
      first run left no `any` in the text. */
  lemma AnyRewriteIdempotent(content: string)
    requires !Contains(ApplyRules(AnyRules(), content).0, "any")
    ensures var once := ApplyRules(AnyRules(), content).0;
            ApplyRules(AnyRules(), once) == (once, 0)
  {
    NoAnyUnchanged(17, ApplyRules(AnyRules(), content).0);
    assert AnyRules()[..17] == AnyRules();
  }

  // ---------------------------------------------------------------------------
  // Unused variables reported by the linter

  /** A variable the linter reports as unused: its name, 1-based line and 1-based column. */
  datatype Unused = Unused(name: string, line: int, column: int)

  const NeverUsed: string := "' is defined but never used"

  /** `'(\w+)' is defined but never used`. */
  const NamePattern: Rule := Rule([Exactly("'"), Name, Exactly(NeverUsed)], [(1, 2)], [])

  /** A non-empty run of word characters. */
  predicate IsIdentifier(name: string) {
    |name| > 0 && forall k :: 0 <= k < |name| ==> IsWordChar(name[k])
  }

  /**
   * The name the message pattern captures when it matches at index i: a quote, the
   * longest run of word characters after it (a shorter run would leave a word
   * character where the closing quote must be), and the rest of the sentence.
   */
  function NameAt(text: string, i: nat): Option<string>
    requires i <= |text|
  {
    if i < |text| && text[i] == '\'' then
      var e := RunEnd(Word, text, i + 1);
      if i + 1 < e && StartsAt(text, NeverUsed, e) then Some(text[i + 1..e]) else None
    else None
  }

  /** The name captured by the leftmost match at or after i. */
  function NameFrom(text: string, i: nat): Option<string>
    requires i <= |text|
    decreases |text| - i
  {
    if i == |text| then None
    else if NameAt(text, i).Some? then NameAt(text, i)
    else NameFrom(text, i + 1)
  }

  /** Group 1 of `re.search` of the pattern in a message text, if it matches. */
  function NameIn(text: string): Option<string> {
    NameFrom(text, 0)
  }

  lemma QuotedName(text: string, i: nat)
    requires i <= |text| && NameAt(text, i).Some?
    ensures var name := NameAt(text, i).value;
            IsIdentifier(name) && StartsAt(text, "'" + name + NeverUsed, i)
  {
    var e := RunEnd(Word, text, i + 1);
    var name := text[i + 1..e];
    assert forall t :: 0 <= t < |name| ==> name[t] == text[i + 1 + t];
    assert text[i..e + |NeverUsed|] == text[i..i + 1] + name + text[e..e + |NeverUsed|];
  }

  lemma {:induction false} NameFromShape(text: string, i: nat)
    requires i <= |text|
    ensures var r := NameFrom(text, i);
            r.Some? ==> IsIdentifier(r.value) && Contains(text, "'" + r.value + NeverUsed)
    decreases |text| - i
  {
    if i < |text| {
      if NameAt(text, i).Some? {
        QuotedName(text, i);
      } else {
        NameFromShape(text, i + 1);
      }
    }
  }

  /** A name found is a word, quoted in the text and followed by the rest of the sentence. */
  lemma NameInShape(text: string)
    ensures var r := NameIn(text);
            r.Some? ==> IsIdentifier(r.value) && Contains(text, "'" + r.value + NeverUsed)
  {
    NameFromShape(text, 0);
  }

  /** The pattern matches at i only where `NameAt` finds a name, and group 1 is that name. */
  lemma HitGivesName(text: string, i: nat)
    requires i <= |text| && Hit(NamePattern, text, i).Some?
    ensures NameAt(text, i) == Some(GroupText(NamePattern.groups, text, Hit(NamePattern, text, i).value, 1))
  {
    var v := Hit(NamePattern, text, i).value;
    RunBetweenLiterals("'", Word, NeverUsed, text, v);
    assert v[0] == i && text[v[0]..v[1]] == "'";
    assert text[v[2]..v[3]] == NeverUsed;
    assert text[v[2]] == NeverUsed[0] && !InClass(Word, text[v[2]]);
    RunEndAt(Word, text, i + 1, v[2]);
  }

  /** Where `NameAt` finds a name, the pattern matches. */
  lemma NameGivesHit(text: string, i: nat)
    requires i <= |text| && NameAt(text, i).Some?
    ensures Hit(NamePattern, text, i).Some?
  {
    var j := RunEnd(Word, text, i + 1);
    var atoms := NamePattern.atoms;
    var tail := [Exactly(NeverUsed)];
    assert tail[1..] == [];
    var e := j + |NeverUsed|;
    assert MatchAt(tail, text, j).Some? by {
      assert AtomEnds(tail[0], text, j) == [e];
      assert MatchAt(tail[1..], text, e) == Some([e]);
      assert TryEnds([e], tail, text, j).Some?;
    }
    var rest := atoms[1..];
    assert rest[1..] == tail;
    assert MatchAt(rest, text, i + 1).Some? by {
      var ends := Down(j, i + 2);
      assert AtomEnds(rest[0], text, i + 1) == ends;
      assert ends[0] == j;
      assert TryEnds(ends, rest, text, i + 1).Some?;
    }
    assert AtomEnds(atoms[0], text, i) == [i + 1] by {
      assert text[i..i + 1] == "'";
    }
    assert TryEnds([i + 1], atoms, text, i).Some?;
    assert PatternMin(atoms) > 0;
  }

  lemma NameAtIsHit(text: string, i: nat)
    requires i <= |text|
    ensures Hit(NamePattern, text, i).Some? <==> NameAt(text, i).Some?
    ensures Hit(NamePattern, text, i).Some? ==>
              NameAt(text, i).value == GroupText(NamePattern.groups, text, Hit(NamePattern, text, i).value, 1)
  {
    if Hit(NamePattern, text, i).Some? {
      HitGivesName(text, i);
    }
    if NameAt(text, i).Some? {
      NameGivesHit(text, i);
    }
  }

  lemma {:induction false} NameFromIsFind(text: string, i: nat)
    requires i <= |text|
    ensures NameFrom(text, i).Some? <==> FindFrom(NamePattern, text, i).Some?
    ensures NameFrom(text, i).Some? ==> NameFrom(text, i) == NameAt(text, FindFrom(NamePattern, text, i).value)
    decreases |text| - i
  {
    if i < |text| {
      NameAtIsHit(text, i);
      if NameAt(text, i).None? {
        NameFromIsFind(text, i + 1);
      }
    }
  }

  /** `NameIn` is group 1 of the first match of `'(\w+)' is defined but never used`, as `re.search` finds it. */
  lemma NameInIsSearch(text: string)
    ensures NameIn(text).Some? <==> Search(NamePattern, text)
    ensures NameIn(text).Some? ==>
              var j := FindFrom(NamePattern, text, 0).value;
              NameIn(text).value == GroupText(NamePattern.groups, text, Hit(NamePattern, text, j).value, 1)
  {
    NameFromIsFind(text, 0);
    if NameIn(text).Some? {
      NameAtIsHit(text, FindFrom(NamePattern, text, 0).value);
    }
  }

  /** `u` is what message `m` reports. */
  predicate Reports(m: Message, u: Unused) {
    HasRule(m, UnusedVarsRule) && NameIn(TextOf(m)) == Some(u.name) && u.line == LineOf(m) && u.column == ColumnOf(m)
  }

  /** The entry a message contributes: one when it is an unused-variable message naming a variable. */
  function EntryOf(m: Message): seq<Unused>
  {
    if HasRule(m, UnusedVarsRule) then
      match NameIn(TextOf(m))
      case Some(name) => [Unused(name, LineOf(m), ColumnOf(m))]
      case None => []
    else []
  }

  /** A message contributes at most one entry, and exactly the one it reports. */
  lemma EntryOfReports(m: Message)
    ensures |EntryOf(m)| <= 1
    ensures forall u :: u in EntryOf(m) <==> Reports(m, u)
  {
  }

  /** The entries of a list of messages, in order. */
  function UnusedIn(msgs: seq<Message>): seq<Unused>
  {
    if msgs == [] then [] else UnusedIn(msgs[..|msgs| - 1]) + EntryOf(msgs[|msgs| - 1])
  }

  /** Every entry listed is reported by one of the messages. */
  lemma {:induction false} ListedIsReported(msgs: seq<Message>, u: Unused)
    requires u in UnusedIn(msgs)
    ensures exists t :: 0 <= t < |msgs| && Reports(msgs[t], u)
  {
    var n := |msgs| - 1;
    if u in UnusedIn(msgs[..n]) {
      ListedIsReported(msgs[..n], u);
      var t :| 0 <= t < n && Reports(msgs[..n][t], u);
      assert msgs[..n][t] == msgs[t];
    } else {
      EntryOfReports(msgs[n]);
    }
  }

  /** Every entry a message reports is listed. */
  lemma {:induction false} ReportedIsListed(msgs: seq<Message>, t: nat, u: Unused)
    requires t < |msgs| && Reports(msgs[t], u)
    ensures u in UnusedIn(msgs)
  {
    var n := |msgs| - 1;
    if t == n {
      EntryOfReports(msgs[n]);
    } else {
      assert msgs[..n][t] == msgs[t];
      ReportedIsListed(msgs[..n], t, u);
    }
  }

  lemma {:induction false} UnusedInConcat(a: seq<Message>, b: seq<Message>)
    ensures UnusedIn(a + b) == UnusedIn(a) + UnusedIn(b)
    decreases |b|
  {
    if b == [] {
      assert a + b == a;
    } else {
      var n := |b| - 1;
      assert (a + b)[..|a + b| - 1] == a + b[..n];
      UnusedInConcat(a, b[..n]);
    }
  }

  /** The messages of every file of the report, file after file. */
  function AllMessages(report: seq<FileReport>): seq<Message> {
    if report == [] then [] else AllMessages(report[..|report| - 1]) + report[|report| - 1].messages
  }

  /** The entries of the whole report: the entries of all its messages, file after file. */
  function UnusedVarsOf(report: seq<FileReport>): seq<Unused>
  {
    if report == [] then []
    else
      var n := |report| - 1;
      UnusedVarsOf(report[..n]) + UnusedIn(report[n].messages)
  }

  /** Collecting file by file gives the entries of all the messages of the report together. */
  lemma {:induction false} UnusedVarsOfAll(report: seq<FileReport>)
    ensures UnusedVarsOf(report) == UnusedIn(AllMessages(report))
  {
    if report != [] {
      var n := |report| - 1;
      UnusedVarsOfAll(report[..n]);
      UnusedInConcat(AllMessages(report[..n]), report[n].messages);
    }
  }

  /** The extraction loop of `fix_unused_vars`. */
  method ExtractUnusedVars(report: seq<FileReport>) returns (unused: seq<Unused>)
    ensures unused == UnusedVarsOf(report)
  {
    unused := [];
    for i := 0 to |report|
      invariant unused == UnusedVarsOf(report[..i])
    {
      assert report[..i + 1][..i] == report[..i];
      var msgs := report[i].messages;
      ghost var before := unused;
      for j := 0 to |msgs|
        invariant unused == before + UnusedIn(msgs[..j])
      {
        assert msgs[..j + 1][..j] == msgs[..j];
        var m := msgs[j];
        ghost var entry := EntryOf(m);
        assert UnusedIn(msgs[..j + 1]) == UnusedIn(msgs[..j]) + entry;
        ghost var prev := unused;
        if HasRule(m, UnusedVarsRule) {
          var name := NameIn(TextOf(m));
          if name.Some? {
            unused := unused + [Unused(name.value, LineOf(m), ColumnOf(m))];
          }
        }
        assert unused == prev + entry;
      }
      assert msgs[..|msgs|] == msgs;
      assert UnusedVarsOf(report[..i + 1]) == UnusedVarsOf(report[..i]) + UnusedIn(msgs);
    }
    assert report[..|report|] == report;
  }

  // ---------------------------------------------------------------------------
  // Prefixing the unused variables with an underscore

  /**
   * The name at 0-based index p of the line is not part of a longer identifier.  The
   * left test reads `(p > 0 and line[p-1].isalnum()) or line[p-1] == '_'`, so at
   * p == 0 it looks at the line's last character.
   */
  predicate Standalone(line: string, p: nat, name: string)
    requires p < |line|
  {
    var leftTaken := (p > 0 && IsAlnum(line[p - 1])) || PyAt(line, p - 1) == '_';
    var e := p + |name|;
    var rightTaken := e < |line| && (IsAlnum(line[e]) || line[e] == '_');
    !leftTaken && !rightTaken
  }

  /** Every check before the underscore is inserted passes for `u` against the current lines. */
  predicate Fixable(lines: seq<string>, u: Unused) {
    && !StartsWith(u.name, "_")
    && 1 <= u.line <= |lines|
    && 0 <= u.column - 1 < |lines[u.line - 1]|
    && PySlice(lines[u.line - 1], u.column - 1, u.column - 1 + |u.name|) == u.name
    && Standalone(lines[u.line - 1], u.column - 1, u.name)
  }

  /** `line[:p] + '_' + line[p:]`. */
  function Underscored(line: string, p: nat): string
    requires p <= |line|
  {
    line[..p] + "_" + line[p..]
  }

  /** The insertion adds one character, an underscore at p; removing it gives the line back. */
  lemma UnderscoredShape(line: string, p: nat)
    requires p <= |line|
    ensures var r := Underscored(line, p);
            && |r| == |line| + 1 && r[p] == '_'
            && r[..p] + r[p + 1..] == line
            && CountChar(r, '_') == CountChar(line, '_') + 1
  {
    var r := Underscored(line, p);
    assert r[..p] == line[..p] && r[p + 1..] == line[p..];
    assert line == line[..p] + line[p..];
    CountCharConcat(line[..p] + "_", line[p..], '_');
    CountCharConcat(line[..p], "_", '_');
    CountCharConcat(line[..p], line[p..], '_');
  }

  /** The inserted underscore sits right before the name. */
  lemma {:induction false} UnderscoreBeforeName(line: string, p: nat, name: string)
    requires p + |name| <= |line| && line[p..p + |name|] == name
    ensures StartsAt(Underscored(line, p), "_" + name, p)
  {
    var fixed := Underscored(line, p);
    UnderscoredShape(line, p);
    assert fixed[p + 1..] == line[p..];
    assert fixed[p + 1..p + 1 + |name|] == name;
  }

  /** What the checks of `Fixable` establish about the line. */
  lemma {:induction false} FixableFindsName(lines: seq<string>, u: Unused)
    requires Fixable(lines, u)
    ensures u.column - 1 + |u.name| <= |lines[u.line - 1]|
    ensures lines[u.line - 1][u.column - 1..u.column - 1 + |u.name|] == u.name
  {
    var line, p := lines[u.line - 1], u.column - 1;
    var piece := PySlice(line, p, p + |u.name|);
    PySliceShape(line, p, p + |u.name|);
    assert |piece| == |u.name|;
    assert forall k :: 0 <= k < |u.name| ==> u.name[k] == line[p + k];
  }

  /** One entry applied to the lines. */
  function FixOne(lines: seq<string>, u: Unused): (r: seq<string>)
    ensures |r| == |lines|
  {
    if Fixable(lines, u) then lines[u.line - 1 := Underscored(lines[u.line - 1], u.column - 1)] else lines
  }

  /** An entry whose name starts with `_`, or whose line is outside the file, changes nothing. */
  lemma SkippedEntries(lines: seq<string>, u: Unused)
    ensures StartsWith(u.name, "_") || u.line < 1 || u.line > |lines| ==> FixOne(lines, u) == lines
  {
  }

  /** A fix inserts an underscore right before the name at its column and changes no other line. */
  lemma {:induction false} FixOneEffect(lines: seq<string>, u: Unused)
    requires Fixable(lines, u)
    ensures forall k :: 0 <= k < |lines| && k != u.line - 1 ==> FixOne(lines, u)[k] == lines[k]
    ensures StartsAt(FixOne(lines, u)[u.line - 1], "_" + u.name, u.column - 1)
  {
    FixableFindsName(lines, u);
    UnderscoreBeforeName(lines[u.line - 1], u.column - 1, u.name);
  }

  /** A fix adds exactly one character to the text, an underscore; anything else adds nothing. */
  lemma {:induction false} FixOneGrowth(lines: seq<string>, u: Unused)
    ensures |Join(FixOne(lines, u))| == |Join(lines)| + (if Fixable(lines, u) then 1 else 0)
    ensures CountChar(Join(FixOne(lines, u)), '_') == CountChar(Join(lines), '_') + (if Fixable(lines, u) then 1 else 0)
  {
    if Fixable(lines, u) {
      UnderscoreGrowth(lines, u.line - 1, u.column - 1);
    }
  }

  /** An underscore inserted into one line adds one character, an underscore, to the text. */
  lemma UnderscoreGrowth(lines: seq<string>, k: nat, p: nat)
    requires k < |lines| && p <= |lines[k]|
    ensures |Join(lines[k := Underscored(lines[k], p)])| == |Join(lines)| + 1
    ensures CountChar(Join(lines[k := Underscored(lines[k], p)]), '_') == CountChar(Join(lines), '_') + 1
  {
    UnderscoredShape(lines[k], p);
    JoinReplace(lines, k, Underscored(lines[k], p), '_');
  }

  /** The entries applied in order, each checked against the lines as the earlier ones left them. */
  function FixAll(lines: seq<string>, us: seq<Unused>): (r: (seq<string>, nat))
    ensures |r.0| == |lines|
    ensures r.1 <= |us|
  {
    if us == [] then (lines, 0)
    else
      var prev := FixAll(lines, us[..|us| - 1]);
      var u := us[|us| - 1];
      (FixOne(prev.0, u), prev.1 + (if Fixable(prev.0, u) then 1 else 0))
  }

  /** The count of fixes is the number of characters added, all of them underscores; no fix means
      no change. */
  lemma {:induction false} FixAllGrowth(lines: seq<string>, us: seq<Unused>)
    ensures |Join(FixAll(lines, us).0)| == |Join(lines)| + FixAll(lines, us).1
    ensures CountChar(Join(FixAll(lines, us).0), '_') == CountChar(Join(lines), '_') + FixAll(lines, us).1
    ensures FixAll(lines, us).1 == 0 ==> FixAll(lines, us).0 == lines
  {
    if us != [] {
      FixAllGrowth(lines, us[..|us| - 1]);
      FixOneGrowth(FixAll(lines, us[..|us| - 1]).0, us[|us| - 1]);
    }
  }

  /** The fixing loop of `fix_unused_vars`, on the file's lines held in an array. */
  method FixUnusedAt(lines: array<string>, unused: seq<Unused>) returns (fixes: nat)
    modifies lines
    ensures lines[..] == FixAll(old(lines[..]), unused).0
    ensures fixes == FixAll(old(lines[..]), unused).1
  {
    fixes := 0;
    for i := 0 to |unused|
      invariant lines[..] == FixAll(old(lines[..]), unused[..i]).0
      invariant fixes == FixAll(old(lines[..]), unused[..i]).1
    {
      assert unused[..i + 1][..i] == unused[..i];
      var fixed := FixEntry(lines, unused[i]);
      if fixed {
        fixes := fixes + 1;
      }
    }
    assert unused[..|unused|] == unused;
  }

  /** The body of the fixing loop for one entry: its checks, and the underscore inserted when they pass. */
  method FixEntry(lines: array<string>, u: Unused) returns (fixed: bool)
    modifies lines
    ensures fixed == Fixable(old(lines[..]), u)
    ensures lines[..] == FixOne(old(lines[..]), u)
  {
    fixed := false;
    if !StartsWith(u.name, "_") && 1 <= u.line <= lines.Length {
      var line := lines[u.line - 1];
      var p := u.column - 1;
      if 0 <= p < |line| && PySlice(line, p, p + |u.name|) == u.name {
        var standalone := true;
        if (p > 0 && IsAlnum(line[p - 1])) || PyAt(line, p - 1) == '_' {
          standalone := false;
        }
        if p + |u.name| < |line| && (IsAlnum(line[p + |u.name|]) || line[p + |u.name|] == '_') {
          standalone := false;
        }
        if standalone {
          lines[u.line - 1] := line[..p] + "_" + line[p..];
          fixed := true;
        }
      }
    }
  }

  /** What `fix_unused_vars` leaves in a file and the number it returns, given the linter's report
      (`None` when its output is not JSON). */
  function UnusedFix(content: string, report: Option<seq<FileReport>>): (r: (string, nat))
  {
    if report.None? || report.value == [] then (content, 0)
    else
      var unused := UnusedVarsOf(report.value);
      if unused == [] then (content, 0)
      else
        var fixed := FixAll(ReadLines(content), unused);
        if fixed.1 > 0 then (Join(fixed.0), fixed.1) else (content, 0)
  }

  /** The file grows by one underscore per fix, and is unchanged when nothing was fixed. */
  lemma UnusedFixGrowth(content: string, report: Option<seq<FileReport>>)
    ensures var r := UnusedFix(content, report);
            && |r.0| == |content| + r.1
            && CountChar(r.0, '_') == CountChar(content, '_') + r.1
            && (r.1 == 0 ==> r.0 == content)
  {
    if report.Some? && report.value != [] && UnusedVarsOf(report.value) != [] {
      FixAllGrowth(ReadLines(content), UnusedVarsOf(report.value));
      ReadLinesJoin(content);
    }
  }

  /** `fix_unused_vars` on the text of one file. */
  method FixUnusedVars(content: string, report: Option<seq<FileReport>>) returns (newContent: string, fixes: nat)
    ensures (newContent, fixes) == UnusedFix(content, report)
  {
    newContent, fixes := content, 0;
    if report.None? || report.value == [] {
      return;
    }
    var unused := ExtractUnusedVars(report.value);
    if unused == [] {
      return;
    }
    var lines;
    lines, fixes := FixLines(ReadLines(content), unused);
    if fixes > 0 {
      newContent := Join(lines);
    }
  }

  /** The lines read into a mutable list, fixed in place, and the list's final contents. */
  method FixLines(ls: seq<string>, unused: seq<Unused>) returns (fixed: seq<string>, fixes: nat)
    ensures (fixed, fixes) == FixAll(ls, unused)
  {
    var lines := new string[|ls|](k requires 0 <= k < |ls| => ls[k]);
    assert lines[..] == ls;
    fixes := FixUnusedAt(lines, unused);
    fixed := lines[..];
  }

  lemma SampleFirstFixable()
    ensures Fixable(["ab cd\n"], Unused("ab", 1, 1))
  {
    var line := "ab cd\n";
    assert !StartsWith("ab", "_") by { assert "ab"[0..1][0] == 'a'; }
    assert PySlice(line, 0, 2) == line[0..2];
    assert line[0..2] == "ab" by { assert line[0..2][0] == 'a' && line[0..2][1] == 'b'; }
    assert PyAt(line, -1) == '\n';
  }

  lemma SampleSecondFixable()
    ensures Fixable(["ab cd\n"], Unused("cd", 1, 4))
  {
    var line := "ab cd\n";
    assert !StartsWith("cd", "_") by { assert "cd"[0..1][0] == 'c'; }
    assert PySlice(line, 3, 5) == line[3..5];
    assert line[3..5] == "cd" by { assert line[3..5][0] == 'c' && line[3..5][1] == 'd'; }
  }

  lemma SampleSecondStale()
    ensures !Fixable(["_ab cd\n"], Unused("cd", 1, 4))
  {
    var line := "_ab cd\n";
    assert PySlice(line, 3, 5) == line[3..5];
    assert line[3] == ' ';
  }

  /**
   * Entries are checked against the line as earlier entries changed it: once an
   * underscore is inserted, a later entry on the same line whose column lies to the
   * right no longer finds its name and is skipped.
   */
  lemma ColumnsNotAdjusted()
    ensures var lines := ["ab cd\n"];
            var us := [Unused("ab", 1, 1), Unused("cd", 1, 4)];
            && Fixable(lines, us[1])
            && FixAll(lines, us) == (["_ab cd\n"], 1)
  {
    var lines := ["ab cd\n"];
    var us := [Unused("ab", 1, 1), Unused("cd", 1, 4)];
    SampleFirstFixable();
    SampleSecondFixable();
    SampleSecondStale();
    var fixed := ["_ab cd\n"];
    assert Underscored(lines[0], 0) == fixed[0];
    assert FixOne(lines, us[0]) == fixed;
    assert us[..1][..0] == [];
    assert FixAll(lines, us[..1]) == (fixed, 1);
  }

  /** At column 1 the left-hand check reads the last character of the line. */
  lemma {:induction false} ColumnOneReadsLineEnd(lines: seq<string>, u: Unused)
    requires 1 <= u.line <= |lines| && u.column == 1
    requires |lines[u.line - 1]| > 0
    requires var line := lines[u.line - 1]; line[|line| - 1] == '_'
    ensures !Fixable(lines, u)
  {
  }

  // ---------------------------------------------------------------------------
  // The directory walk

  /** The file-name test of `process_directory`. */
  predicate IsTypeScript(name: string) {
    EndsWith(name, ".ts") || EndsWith(name, ".tsx") || EndsWith(name, ".d.ts")
  }

  /** The `.d.ts` test adds nothing: such a name already ends with `.ts`. */
  lemma DeclarationFilesAreTs(name: string)
    ensures IsTypeScript(name) <==> EndsWith(name, ".ts") || EndsWith(name, ".tsx")
  {
    assert EndsWith(name, ".d.ts") ==> name[|name| - 3..] == ".d.ts"[2..];
  }

  /**
   * One file: the rewrite by `rules`, then the unused-variable fix, the linter seeing
   * the rewritten text.  The walk is stated for any list of rules; `process_directory`
   * uses `AnyRules()`.
   */
  function FixFile(f: SourceFile, rules: seq<Rule>, lint: (string, string) -> Option<seq<FileReport>>): (SourceFile, nat, nat)
  {
    var anyStep := ApplyRules(rules, f.content);
    var unusedStep := UnusedFix(anyStep.0, lint(JoinPath(f.root, f.name), anyStep.0));
    (f.(content := unusedStep.0), anyStep.1, unusedStep.1)
  }

  /** A file keeps its place and name, and its text when neither step fixed anything. */
  lemma FixFileKeeps(f: SourceFile, rules: seq<Rule>, lint: (string, string) -> Option<seq<FileReport>>)
    ensures var r := FixFile(f, rules, lint);
            && r.0.root == f.root && r.0.name == f.name
            && (r.1 == 0 && r.2 == 0 ==> r.0 == f)
  {
    var anyStep := ApplyRules(rules, f.content);
    UnusedFixGrowth(anyStep.0, lint(JoinPath(f.root, f.name), anyStep.0));
  }

  /** The two fixing steps of the walk for one TypeScript file. */
  method FixTypeScriptFile(f: SourceFile, rules: seq<Rule>, lint: (string, string) -> Option<seq<FileReport>>)
    returns (g: SourceFile, anyFixes: nat, unusedFixes: nat)
    ensures (g, anyFixes, unusedFixes) == FixFile(f, rules, lint)
  {
    var path := JoinPath(f.root, f.name);
    var fixed;
    fixed, anyFixes := SubstituteAll(rules, f.content);
    var content := if anyFixes > 0 then fixed else f.content;
    var newContent;
    newContent, unusedFixes := FixUnusedVars(content, lint(path, content));
    g := f.(content := newContent);
  }

  /** The walk over the files, in walk order: the files afterwards and both fix counts. */
  function Walk(files: seq<SourceFile>, rules: seq<Rule>, lint: (string, string) -> Option<seq<FileReport>>): (r: (seq<SourceFile>, nat, nat))
    ensures |r.0| == |files|
  {
    if files == [] then ([], 0, 0)
    else
      var n := |files| - 1;
      var prev := Walk(files[..n], rules, lint);
      var f := files[n];
      if IsTypeScript(f.name) then
        var step := FixFile(f, rules, lint);
        (prev.0 + [step.0], prev.1 + step.1, prev.2 + step.2)
      else (prev.0 + [f], prev.1, prev.2)
  }

  /** Every file keeps its place and name through the walk. */
  lemma {:induction false} WalkKeepsNames(files: seq<SourceFile>, rules: seq<Rule>, lint: (string, string) -> Option<seq<FileReport>>)
    ensures var after := Walk(files, rules, lint).0;
            forall k :: 0 <= k < |files| ==> after[k].root == files[k].root && after[k].name == files[k].name
  {
    if files != [] {
      var n := |files| - 1;
      WalkKeepsNames(files[..n], rules, lint);
      FixFileKeeps(files[n], rules, lint);
    }
  }

  /** Files that are not TypeScript come out of the walk as they went in. */
  lemma {:induction false} WalkSkipsOthers(files: seq<SourceFile>, rules: seq<Rule>, lint: (string, string) -> Option<seq<FileReport>>)
    ensures var after := Walk(files, rules, lint).0;
            forall k :: 0 <= k < |files| && !IsTypeScript(files[k].name) ==> after[k] == files[k]
  {
    if files != [] {
      WalkSkipsOthers(files[..|files| - 1], rules, lint);
    }
  }

  /** A walk that reports no fix of either kind leaves every file as it was. */
  lemma {:induction false} WalkWithoutFixes(files: seq<SourceFile>, rules: seq<Rule>, lint: (string, string) -> Option<seq<FileReport>>)
    ensures var r := Walk(files, rules, lint);
            r.1 == 0 && r.2 == 0 ==> r.0 == files
  {
    var r := Walk(files, rules, lint);
    if files != [] && r.1 == 0 && r.2 == 0 {
      var n := |files| - 1;
      var prev := Walk(files[..n], rules, lint);
      WalkWithoutFixes(files[..n], rules, lint);
      assert prev.0 == files[..n];
      if IsTypeScript(files[n].name) {
        var step := FixFile(files[n], rules, lint);
        FixFileKeeps(files[n], rules, lint);
        assert r.0 == prev.0 + [step.0] && step.0 == files[n];
      }
      assert r.0 == files[..n] + [files[n]];
      assert files == files[..n] + [files[n]];
    }
  }

  /** The loop of `process_directory` over the files of the walk. */
  method WalkFiles(files: seq<SourceFile>, rules: seq<Rule>, lint: (string, string) -> Option<seq<FileReport>>)
    returns (after: seq<SourceFile>, anyFixes: nat, unusedFixes: nat)
    ensures (after, anyFixes, unusedFixes) == Walk(files, rules, lint)
  {
    after, anyFixes, unusedFixes := [], 0, 0;
    for i := 0 to |files|
      invariant after == Walk(files[..i], rules, lint).0
      invariant anyFixes == Walk(files[..i], rules, lint).1
      invariant unusedFixes == Walk(files[..i], rules, lint).2
    {
      assert files[..i + 1][..i] == files[..i];
      var f := files[i];
      if IsTypeScript(f.name) {
        var g, n1, n2 := FixTypeScriptFile(f, rules, lint);
        after := after + [g];
        anyFixes := anyFixes + n1;
        unusedFixes := unusedFixes + n2;
      } else {
        after := after + [f];
      }
    }
    assert files[..|files|] == files;
  }

  /** `process_directory`: the linter is a function of a file's path and its current text. */
  method ProcessDirectory(files: seq<SourceFile>, lint: (string, string) -> Option<seq<FileReport>>)
    returns (after: seq<SourceFile>, anyFixes: nat, unusedFixes: nat)
    ensures (after, anyFixes, unusedFixes) == Walk(files, AnyRules(), lint)
  {
    after, anyFixes, unusedFixes := WalkFiles(files, AnyRules(), lint);
  }
}
